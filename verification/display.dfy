/**
 * The visual annotation of the displayed rows: a base colour chosen from the
 * due difference and an alpha that fades with the row's rank, in steps of
 * 1 / MaxEntries. Alphas are kept in hundredths, the precision `toFixed(2)`
 * gives them.
 */
module Display {
  import opened Tasks

  /** At most this many rows are shown. */
  const MaxEntries := 20

  const OverdueColour := Colour(255, 100, 100, None)
  const DueColour := Colour(255, 200, 0, None)
  const NormalColour := Colour(255, 255, 255, None)
  const TagsColour := Colour(50, 225, 50, None)

  /** `1 - rank / MaxEntries`, in hundredths. */
  function Opacity(rank: nat): (alpha: int)
    requires rank <= MaxEntries
    ensures alpha * MaxEntries == 100 * (MaxEntries - rank)
  {
    100 * (MaxEntries - rank) / MaxEntries
  }

  /** The fade is strictly decreasing over the ranks, from 1.00 down to 0.05. */
  lemma OpacityFades(i: nat, j: nat)
    requires i < j < MaxEntries
    ensures Opacity(i) > Opacity(j)
    ensures Opacity(0) == 100 && Opacity(MaxEntries - 1) == 5
    ensures 0 < Opacity(j) <= 100
  {
  }

  /** The `opacities` table, built by pushing one value per rank. */
  method BuildOpacities() returns (values: seq<int>)
    ensures |values| == MaxEntries
    ensures forall i :: 0 <= i < MaxEntries ==> values[i] * MaxEntries == 100 * (MaxEntries - i)
  {
    values := [];
    var i := 0;
    while i < MaxEntries
      invariant 0 <= i <= MaxEntries
      invariant |values| == i
      invariant forall k :: 0 <= k < i ==> values[k] == Opacity(k)
    {
      values := values + [Opacity(i)];
      i := i + 1;
    }
  }

  /**
   * The base colour of a row. The comparisons are JavaScript's: a number is
   * compared as is, the empty text (a due field left as "") equals 0, and an
   * absent field compares false both ways. A non-empty due text never reaches
   * here, since normalisation replaced it.
   */
  function BaseColour(d: Due): (c: Colour)
    ensures c.a.None?
    ensures c == OverdueColour <==> d.DueMillis? && d.ms < 0
    ensures c == DueColour <==> d == DueMillis(0) || d == DueText("")
    ensures c == NormalColour <==> !(d.DueMillis? && d.ms <= 0) && d != DueText("")
  {
    match d
    case DueMillis(ms) => if ms < 0 then OverdueColour else if ms == 0 then DueColour else NormalColour
    case DueText(s) => if s == "" then DueColour else NormalColour
    case NoDue => NormalColour
  }

  /** `colourTask`: a fresh copy of the base colour, given the row's alpha. */
  function Coloured(t: Task, alpha: int): Task {
    t.(colour := Some(BaseColour(t.due).(a := Some(alpha))))
  }

  /** `map(colourTask)` over the displayed rows, each record updated in place. */
  method ColourTasks(rows: array<Task>, opacities: seq<int>)
    requires rows.Length <= |opacities|
    modifies rows
    ensures forall i :: 0 <= i < rows.Length ==> rows[i] == Coloured(old(rows[i]), opacities[i])
  {
    var i := 0;
    while i < rows.Length
      invariant 0 <= i <= rows.Length
      invariant forall k :: 0 <= k < i ==> rows[k] == Coloured(old(rows[k]), opacities[k])
      invariant forall k :: i <= k < rows.Length ==> rows[k] == old(rows[k])
    {
      var t := rows[i];
      var base := BaseColour(t.due);
      t := t.(colour := Some(base));
      t := t.(colour := Some(t.colour.value.(a := Some(opacities[i]))));
      rows[i] := t;
      i := i + 1;
    }
  }

  /**
   * `rgbaString`: the colour's channels with its own alpha when it has one,
   * otherwise the alpha passed in (absent when none is passed). The source
   * tests the alpha for truthiness, so an alpha of 0 would also fall back; no
   * colour reaching this function has one (row alphas are 0.05 to 1.00, the
   * header's is 1), so presence is the same test here. The text layout of the
   * result is not modelled.
   */
  function Rgba(c: Colour, alpha: Option<int>): (v: Colour)
    ensures v.r == c.r && v.g == c.g && v.b == c.b
    ensures c.a.Some? ==> v.a == c.a
    ensures c.a.None? ==> v.a == alpha
  {
    c.(a := if c.a.Some? then c.a else alpha)
  }

  /**
   * A coloured row is drawn with its base colour at its rank's opacity, and its
   * tag cell in the tag colour at the same opacity.
   */
  lemma RowColours(t: Task, rank: nat)
    requires rank < MaxEntries
    ensures var row := Coloured(t, Opacity(rank));
      && row.colour.Some?
      && Rgba(row.colour.value, None) == BaseColour(t.due).(a := Some(Opacity(rank)))
      && Rgba(TagsColour, row.colour.value.a) == TagsColour.(a := Some(Opacity(rank)))
  {
  }
}
