/** Sharing a report page's text width among a table's columns: in proportion to what each
    column says, but never less than its longest word where all the longest words fit.
 */
module Widths {

  const TEXT_WIDTH := 16.6
  const PER_CHAR := 0.19
  const PAD := 0.4

  /** A cell's text: the lengths of its words, and its own length. */
  datatype Text = Text(words: seq<nat>, length: nat)

  type Column = seq<Text>

  function Larger(a: nat, b: nat): nat { if a < b then b else a }

  function LongestIn(words: seq<nat>): nat {
    if words == [] then 0 else Larger(words[0], LongestIn(words[1..]))
  }

  function LongestWord(column: Column): nat {
    if column == [] then 0 else Larger(LongestIn(column[0].words), LongestWord(column[1..]))
  }

  function LongestText(column: Column): nat {
    if column == [] then 0 else Larger(column[0].length, LongestText(column[1..]))
  }

  predicate NoWords(column: Column) {
    forall t :: t in column ==> t.words == []
  }

  /** The room a column's longest word needs; a column with no words is given one character's. */
  function Least(column: Column): real {
    PAD + PER_CHAR * ((if NoWords(column) then 1 else LongestWord(column)) as real)
  }

  /** The room it would like: its longest text, up to forty characters. */
  function Want(column: Column): real {
    var text := LongestText(column);
    var full := PAD + PER_CHAR * ((if text < 40 then text else 40) as real);
    if Least(column) < full then full else Least(column)
  }

  function Sum(xs: seq<real>): real {
    if xs == [] then 0.0 else xs[0] + Sum(xs[1..])
  }

  function Mapped(columns: seq<Column>, f: Column -> real): seq<real> {
    seq(|columns|, i requires 0 <= i < |columns| => f(columns[i]))
  }

  function Times(k: real, x: real): real { k * x }

  function Scaled(xs: seq<real>, k: real): (ys: seq<real>)
    ensures |ys| == |xs|
  {
    seq(|xs|, i requires 0 <= i < |xs| => Times(k, xs[i]))
  }

  function Plus(xs: seq<real>, ys: seq<real>): (zs: seq<real>)
    requires |xs| == |ys|
    ensures |zs| == |xs|
  {
    seq(|xs|, i requires 0 <= i < |xs| => xs[i] + ys[i])
  }

  function Minus(xs: seq<real>, ys: seq<real>): (zs: seq<real>)
    requires |xs| == |ys|
    ensures |zs| == |xs|
  {
    seq(|xs|, i requires 0 <= i < |xs| => xs[i] - ys[i])
  }

  /** The three ways the width is shared. Each divisor is positive in its own branch. */
  function Allocate(least: seq<real>, want: seq<real>, width: real): (widths: seq<real>)
    requires |least| == |want| > 0 && width > 0.0
    requires forall i :: 0 <= i < |least| ==> 0.0 < least[i] <= want[i]
    ensures |widths| == |least|
  {
    SumPositive(least);
    SumPositive(want);
    SumOrdered(least, want);
    if Sum(want) <= width then Scaled(want, width / Sum(want))
    else if Sum(least) >= width then Scaled(least, width / Sum(least))
    else
      var extra := Minus(want, least);
      SumMinus(want, least);
      Plus(least, Scaled(extra, (width - Sum(least)) / Sum(extra)))
  }

  /** `_table`'s widths for a table's columns. */
  function TableWidths(columns: seq<Column>): seq<real>
    requires columns != []
  {
    assert forall i :: 0 <= i < |columns| ==> 0.0 < Least(columns[i]) <= Want(columns[i]);
    Allocate(Mapped(columns, Least), Mapped(columns, Want), TEXT_WIDTH)
  }

  lemma {:induction false} SumPositive(xs: seq<real>)
    requires forall i :: 0 <= i < |xs| ==> xs[i] > 0.0
    ensures Sum(xs) >= 0.0 && (xs != [] ==> Sum(xs) > 0.0)
  {
    if xs != [] { SumPositive(xs[1..]); }
  }

  lemma {:induction false} SumOrdered(xs: seq<real>, ys: seq<real>)
    requires |xs| == |ys| && forall i :: 0 <= i < |xs| ==> xs[i] <= ys[i]
    ensures Sum(xs) <= Sum(ys)
  {
    if xs != [] { SumOrdered(xs[1..], ys[1..]); }
  }

  lemma {:induction false} SumScaled(xs: seq<real>, k: real)
    ensures Sum(Scaled(xs, k)) == Times(k, Sum(xs))
  {
    if xs != [] {
      hide Times;
      SumScaled(xs[1..], k);
      assert Scaled(xs, k)[1..] == Scaled(xs[1..], k);
    }
  }

  /** Scaled so that the sum comes to a given width. */
  lemma Proportional(xs: seq<real>, width: real)
    requires Sum(xs) > 0.0
    ensures Sum(Scaled(xs, width / Sum(xs))) == width
  {
    SumScaled(xs, width / Sum(xs));
  }

  lemma {:induction false} SumMinus(xs: seq<real>, ys: seq<real>)
    requires |xs| == |ys|
    ensures Sum(Minus(xs, ys)) == Sum(xs) - Sum(ys)
  {
    if xs != [] {
      SumMinus(xs[1..], ys[1..]);
      assert Minus(xs, ys)[1..] == Minus(xs[1..], ys[1..]);
    }
  }

  lemma {:induction false} SumPlus(xs: seq<real>, ys: seq<real>)
    requires |xs| == |ys|
    ensures Sum(Plus(xs, ys)) == Sum(xs) + Sum(ys)
  {
    if xs != [] {
      SumPlus(xs[1..], ys[1..]);
      assert Plus(xs, ys)[1..] == Plus(xs[1..], ys[1..]);
    }
  }

  /** The widths add up to the page's, to the last fraction. */
  lemma WidthsFill(least: seq<real>, want: seq<real>, width: real)
    requires |least| == |want| > 0 && width > 0.0
    requires forall i :: 0 <= i < |least| ==> 0.0 < least[i] <= want[i]
    ensures Sum(Allocate(least, want, width)) == width
  {
    SumPositive(least);
    SumPositive(want);
    if Sum(want) <= width {
      Proportional(want, width);
    } else if Sum(least) >= width {
      Proportional(least, width);
    } else {
      var extra := Minus(want, least);
      SumMinus(want, least);
      Proportional(extra, width - Sum(least));
      SumPlus(least, Scaled(extra, (width - Sum(least)) / Sum(extra)));
    }
  }

  /** No column is narrower than its longest word exactly when the longest words fit
      together; and then, if not everything wanted fits, none is wider than it wants.
   */
  lemma WordsFitExactly(least: seq<real>, want: seq<real>, width: real)
    requires |least| == |want| > 0 && width > 0.0
    requires forall i :: 0 <= i < |least| ==> 0.0 < least[i] <= want[i]
    ensures (forall i :: 0 <= i < |least| ==> Allocate(least, want, width)[i] >= least[i]) <==> Sum(least) <= width
    ensures Sum(least) <= width < Sum(want) ==>
      forall i :: 0 <= i < |least| ==> Allocate(least, want, width)[i] <= want[i]
  {
    SumPositive(least);
    SumPositive(want);
    SumOrdered(least, want);
    var widths := Allocate(least, want, width);
    WidthsFill(least, want, width);
    if forall i :: 0 <= i < |least| ==> widths[i] >= least[i] { SumOrdered(least, widths); }
    if Sum(least) <= width {
      forall i | 0 <= i < |least| ensures widths[i] >= least[i] && (Sum(want) > width ==> widths[i] <= want[i]) {
        WordFits(least, want, width, i);
      }
    }
  }

  lemma WordFits(least: seq<real>, want: seq<real>, width: real, i: nat)
    requires |least| == |want| > 0 && width > 0.0 && i < |least|
    requires forall i :: 0 <= i < |least| ==> 0.0 < least[i] <= want[i]
    requires Sum(least) <= width
    ensures Allocate(least, want, width)[i] >= least[i]
    ensures Sum(want) > width ==> Allocate(least, want, width)[i] <= want[i]
  {
    hide Sum, Plus, Minus, Scaled;
    SumPositive(least);
    SumPositive(want);
    var widths := Allocate(least, want, width);
    if Sum(want) <= width {
      assert widths == Scaled(want, width / Sum(want));
      ScaledUp(want, width, i);
    } else if Sum(least) == width {
      assert widths == Scaled(least, width / Sum(least));
      Unscaled(least, width, i);
    } else {
      SumMinus(want, least);
      var extra := Minus(want, least);
      assert widths == Plus(least, Scaled(extra, (width - Sum(least)) / Sum(extra)));
      LeftOver(want, least, i);
      Topped(least, extra, width - Sum(least), i);
    }
  }

  lemma LeftOver(xs: seq<real>, ys: seq<real>, i: nat)
    requires |xs| == |ys| && i < |xs|
    ensures Minus(xs, ys)[i] == xs[i] - ys[i]
  {
  }

  lemma Unscaled(xs: seq<real>, width: real, i: nat)
    requires i < |xs| && Sum(xs) == width > 0.0
    ensures Scaled(xs, width / Sum(xs))[i] == xs[i]
  {
    hide Sum;
    assert Scaled(xs, width / Sum(xs))[i] == Times(width / Sum(xs), xs[i]);
  }

  lemma ScaledUp(xs: seq<real>, width: real, i: nat)
    requires i < |xs| && xs[i] > 0.0 && 0.0 < Sum(xs) <= width
    ensures Scaled(xs, width / Sum(xs))[i] >= xs[i]
  {
    var k := width / Sum(xs);
    assert k >= 1.0;
    hide Sum, Times;
  }

  lemma Topped(least: seq<real>, extra: seq<real>, spare: real, i: nat)
    requires |least| == |extra| && i < |least| && extra[i] >= 0.0 && 0.0 <= spare <= Sum(extra) && Sum(extra) > 0.0
    ensures least[i] <= Plus(least, Scaled(extra, spare / Sum(extra)))[i] <= least[i] + extra[i]
  {
    Share(extra[i], spare / Sum(extra));
    hide Sum, Times;
  }

  lemma Share(x: real, k: real)
    requires x >= 0.0 && 0.0 <= k <= 1.0
    ensures 0.0 <= Times(k, x) <= x
  {
    if x > 0.0 && k > 0.0 { assert k * x > 0.0; }
    if x > 0.0 && k < 1.0 { assert (1.0 - k) * x > 0.0; }
  }

  lemma {:induction false} WordsWithin(column: Column, t: Text, w: nat)
    requires t in column && w in t.words
    ensures w <= LongestWord(column)
  {
    if t == column[0] { LongestOf(t.words, w); } else { WordsWithin(column[1..], t, w); }
  }

  lemma {:induction false} LongestOf(words: seq<nat>, w: nat)
    requires w in words
    ensures w <= LongestIn(words)
  {
    if w != words[0] { LongestOf(words[1..], w); }
  }

  lemma {:induction false} TextsWithin(column: Column, t: Text)
    requires t in column
    ensures t.length <= LongestText(column)
  {
    if t != column[0] { TextsWithin(column[1..], t); }
  }

  /** A column's minimum has room for each of its words, and what it wants for each of its
      texts of up to forty characters.
   */
  lemma RoomForWords(column: Column, t: Text, w: nat)
    requires t in column
    ensures w in t.words ==> Least(column) >= PAD + PER_CHAR * (w as real)
    ensures t.length <= 40 ==> Want(column) >= PAD + PER_CHAR * (t.length as real)
  {
    TextsWithin(column, t);
    if w in t.words { WordsWithin(column, t, w); }
  }

  /** For any table at all: the columns fill the text width, and none breaks its longest
      word unless the longest words cannot all fit.
   */
  lemma TableFits(columns: seq<Column>)
    requires columns != []
    ensures Sum(TableWidths(columns)) == TEXT_WIDTH
    ensures (forall i :: 0 <= i < |columns| ==> TableWidths(columns)[i] >= Least(columns[i])) <==>
      Sum(Mapped(columns, Least)) <= TEXT_WIDTH
  {
    var least, want := Mapped(columns, Least), Mapped(columns, Want);
    assert forall i :: 0 <= i < |columns| ==> least[i] == Least(columns[i]) && want[i] == Want(columns[i]);
    WidthsFill(least, want, TEXT_WIDTH);
    WordsFitExactly(least, want, TEXT_WIDTH);
  }
}
