/**
 * The TAGS column: a task's tag list flattened into one string, each tag
 * prefixed by '+' and the results joined by single spaces.
 */
module TagJoin {

  /** `parts.join(sep)` for a one-character separator. */
  function Join(parts: seq<string>, sep: char): string
    decreases |parts|
  {
    if |parts| == 0 then ""
    else if |parts| == 1 then parts[0]
    else parts[0] + [sep] + Join(parts[1..], sep)
  }

  /** The first position of `c` in `s`. */
  function FirstIndex(s: string, c: char): (i: nat)
    requires c in s
    ensures i < |s| && s[i] == c && c !in s[..i]
  {
    if s[0] == c then 0 else 1 + FirstIndex(s[1..], c)
  }

  /** `s.split(sep)`: the pieces between separators; the empty string gives `[""]`. */
  function Split(s: string, sep: char): (parts: seq<string>)
    ensures |parts| >= 1
    decreases |s|
  {
    if sep !in s then [s]
    else
      var i := FirstIndex(s, sep);
      [s[..i]] + Split(s[i + 1..], sep)
  }

  /** The tag list with '+' in front of each tag. */
  function Prefixed(tags: seq<string>): (r: seq<string>)
    ensures |r| == |tags|
    ensures forall i :: 0 <= i < |tags| ==> r[i] == "+" + tags[i]
  {
    seq(|tags|, i requires 0 <= i < |tags| => "+" + tags[i])
  }

  /** The flattened tag text. */
  function JoinTags(tags: seq<string>): (text: string)
    ensures text == "" <==> tags == []
    ensures tags != [] ==> text[0] == '+'
  {
    var text := Join(Prefixed(tags), ' ');
    if tags == [] then text
    else
      assert |tags| == 1 ==> text == "+" + tags[0];
      assert |tags| > 1 ==> text == "+" + tags[0] + [' '] + Join(Prefixed(tags)[1..], ' ');
      text
  }

  /** Reading the tag list back from the flattened text: split on spaces, drop each '+'. */
  function UnjoinTags(text: string): (tags: seq<string>)
  {
    var parts := Split(text, ' ');
    seq(|parts|, i requires 0 <= i < |parts| => if parts[i] == [] then [] else parts[i][1..])
  }

  /** Where the first separator sits in a piece followed by a separator. */
  lemma FirstIndexAfter(a: string, sep: char, b: string)
    requires sep !in a
    ensures sep in a + [sep] + b && FirstIndex(a + [sep] + b, sep) == |a|
  {
    var s := a + [sep] + b;
    assert s[|a|] == sep;
  }

  /** Splitting undoes joining when no part contains the separator. */
  lemma {:induction false} SplitJoin(parts: seq<string>, sep: char)
    requires |parts| >= 1
    requires forall i :: 0 <= i < |parts| ==> sep !in parts[i]
    ensures Split(Join(parts, sep), sep) == parts
    decreases |parts|
  {
    if |parts| > 1 {
      var rest := Join(parts[1..], sep);
      var s := parts[0] + [sep] + rest;
      assert Join(parts, sep) == s;
      FirstIndexAfter(parts[0], sep, rest);
      assert s[..|parts[0]|] == parts[0];
      assert s[|parts[0]| + 1..] == rest;
      assert Split(s, sep) == [parts[0]] + Split(rest, sep);
      SplitJoin(parts[1..], sep);
      assert parts == [parts[0]] + parts[1..];
    }
  }

  /**
   * Flattening loses nothing: tags without spaces are recovered in order
   * from the text.
   */
  lemma TagsRoundTrip(tags: seq<string>)
    requires tags != []
    requires forall i :: 0 <= i < |tags| ==> ' ' !in tags[i]
    ensures var parts := Split(JoinTags(tags), ' ');
      |parts| == |tags| && forall i :: 0 <= i < |tags| ==> parts[i] == "+" + tags[i]
    ensures UnjoinTags(JoinTags(tags)) == tags
  {
    var parts := Prefixed(tags);
    forall i | 0 <= i < |parts| ensures ' ' !in parts[i] {
      assert parts[i] == "+" + tags[i];
    }
    SplitJoin(parts, ' ');
    var back := UnjoinTags(JoinTags(tags));
    forall i | 0 <= i < |tags| ensures back[i] == tags[i] {
      assert parts[i][1..] == tags[i];
    }
  }
}
