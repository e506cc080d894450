/**
 The popup's preview lists (popup/popup.js:175-183 for archived tabs,
 412-417 for inactive tabs): at most the first ten entries, one bulleted line
 each, and a closing "... and N more" line exactly when entries were left
 out. The lines are modelled before they are joined with newlines.
 */
module Preview {
  import opened Basics
  import opened Decimal
  import opened Tabs

  /** How many entries a preview shows. */
  const PreviewLimit: nat := 10

  const Bullet: string := "• "
  const MorePrefix: string := "... and "
  const MoreSuffix: string := " more"

  /** `tab.title || tab.url`: an empty title falls back to the URL. */
  function Label(title: string, url: string): string {
    if title == "" then url else title
  }

  /** The closing line for `hidden` entries that were left out. */
  function MoreLine(hidden: nat): string {
    MorePrefix + NatToString(hidden) + MoreSuffix
  }

  /** The bulleted lines for the entries shown, then the closing line when
      there are more than `PreviewLimit` entries. */
  function PreviewLines(labels: seq<string>): (lines: seq<string>)
    ensures |labels| <= 10 ==> |lines| == |labels|
    ensures |labels| > 10 ==> |lines| == 11 && lines[10] == MoreLine(|labels| - 10)
    ensures forall k :: 0 <= k < |lines| && k < 10 && k < |labels| ==> lines[k] == Bullet + labels[k]
  {
    var n := if |labels| <= PreviewLimit then |labels| else PreviewLimit;
    var shown := seq(n, k requires 0 <= k < n => Bullet + labels[k]);
    if |labels| > PreviewLimit then shown + [MoreLine(|labels| - PreviewLimit)] else shown
  }

  /** Reads the hidden count back from a closing line. */
  function ParseMoreLine(s: string): Option<nat> {
    if |s| >= |MorePrefix| + |MoreSuffix|
       && s[..|MorePrefix|] == MorePrefix
       && s[|s| - |MoreSuffix|..] == MoreSuffix
    then ParseNat(s[|MorePrefix|..|s| - |MoreSuffix|])
    else None
  }

  /** The number of entries a preview stands for, as a reader counts them:
      the bulleted lines plus the number on a closing line. */
  function ReadTotal(lines: seq<string>): nat {
    if |lines| == 0 then 0
    else
      match ParseMoreLine(lines[|lines| - 1])
      case Some(hidden) => |lines| - 1 + hidden
      case None => |lines|
  }

  lemma MoreLineRoundTrip(hidden: nat)
    ensures ParseMoreLine(MoreLine(hidden)) == Some(hidden)
  {
    var s := MoreLine(hidden);
    var digits := NatToString(hidden);
    assert s[..|MorePrefix|] == MorePrefix;
    assert s[|s| - |MoreSuffix|..] == MoreSuffix;
    assert s[|MorePrefix|..|s| - |MoreSuffix|] == digits;
    NatRoundTrip(hidden);
  }

  /** A bulleted line is never mistaken for a closing line. */
  lemma BulletIsNotMoreLine(text: string)
    ensures ParseMoreLine(Bullet + text) == None
  {
    var s := Bullet + text;
    if |s| >= |MorePrefix| + |MoreSuffix| {
      assert s[..|MorePrefix|][0] == s[0] == '•';
    }
  }

  /** A preview loses no count: the shown lines plus the number on the closing
      line add up to the number of entries. */
  lemma PreviewAccountsForAll(labels: seq<string>)
    ensures ReadTotal(PreviewLines(labels)) == |labels|
  {
    var lines := PreviewLines(labels);
    if |labels| > PreviewLimit {
      MoreLineRoundTrip(|labels| - PreviewLimit);
    } else if |labels| > 0 {
      BulletIsNotMoreLine(labels[|labels| - 1]);
    }
  }

  /** The inactive-tab preview (popup/popup.js:412-417): the first ten tabs,
      each labelled by its title, or by its URL when the title is empty, and
      a closing line exactly when there are more than ten, so that the lines
      account for every tab. */
  function InactivePreview(tabs: seq<Tab>): (lines: seq<string>)
    ensures |tabs| <= 10 ==> |lines| == |tabs|
    ensures |tabs| > 10 ==> |lines| == 11 && lines[10] == MoreLine(|tabs| - 10)
    ensures forall k :: 0 <= k < |lines| && k < 10 && k < |tabs| ==>
              lines[k] == Bullet + (if tabs[k].title == "" then tabs[k].url else tabs[k].title)
    ensures ReadTotal(lines) == |tabs|
  {
    var labels := seq(|tabs|, k requires 0 <= k < |tabs| => Label(tabs[k].title, tabs[k].url));
    PreviewAccountsForAll(labels);
    PreviewLines(labels)
  }

  /** Scenario: twelve entries preview as ten lines and "... and 2 more". */
  lemma TwelveEntries()
    ensures PreviewLines(seq(12, k => "t"))[10] == "... and 2 more"
  {
    assert NatToString(2) == "2";
  }
}
