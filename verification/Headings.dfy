/** From a register's text to the scanner's lines: a line's cells, read as a heading, are
    matched to columns, and head a table when that finds an instrument column and a date.
 */
module Headings {
  import opened Options
  import opened ColumnMatch
  import R = Register

  /** The columns a table cannot do without: the instrument's, and one of two dates. */
  datatype Keys = Keys(instrument: nat, lastCal: nat, due: nat)

  /** A line as written: its cells as heading words, and which of them could be a tag. */
  datatype RawLine = Empty | Cells(bar: bool, separator: bool, headers: seq<Words>, tags: seq<bool>)

  /** The instrument column, where there is a calibration date or a due date as well. */
  function HeadingOf(columns: map<nat, nat>, keys: Keys): Option<nat> {
    if keys.instrument in columns && (keys.lastCal in columns || keys.due in columns)
    then Some(columns[keys.instrument])
    else None
  }

  /** A line as the scanner sees it. */
  ghost predicate ReadsAs(raw: RawLine, line: R.Line, vocab: seq<Vocabulary>, keys: Keys) {
    match raw
    case Empty => line == R.Blank
    case Cells(bar, separator, headers, tags) =>
      exists columns :: IsMatching(columns, vocab, headers)
                        && line == R.Written(bar, separator, tags, HeadingOf(columns, keys))
  }

  method ReadLine(raw: RawLine, vocab: seq<Vocabulary>, keys: Keys) returns (line: R.Line)
    ensures ReadsAs(raw, line, vocab, keys)
  {
    match raw
    case Empty => return R.Blank;
    case Cells(bar, separator, headers, tags) =>
      var columns, cs, chosen := MatchColumns(vocab, headers);
      assert Ranked(cs, vocab, headers) && Matched(cs, chosen, columns);
      assert IsMatching(columns, vocab, headers);
      hide IsMatching;
      return R.Written(bar, separator, tags, HeadingOf(columns, keys));
  }

  /** A text reads in one way only. */
  lemma ReadsOneWay(raw: RawLine, a: R.Line, b: R.Line, vocab: seq<Vocabulary>, keys: Keys)
    requires ReadsAs(raw, a, vocab, keys) && ReadsAs(raw, b, vocab, keys)
    ensures a == b
  {
    if raw.Cells? {
      var c :| IsMatching(c, vocab, raw.headers)
               && a == R.Written(raw.bar, raw.separator, raw.tags, HeadingOf(c, keys));
      var d :| IsMatching(d, vocab, raw.headers)
               && b == R.Written(raw.bar, raw.separator, raw.tags, HeadingOf(d, keys));
      MatchingUnique(c, d, vocab, raw.headers);
    }
  }

  method ReadLines(raws: seq<RawLine>, vocab: seq<Vocabulary>, keys: Keys) returns (lines: seq<R.Line>)
    ensures |lines| == |raws|
    ensures forall i :: 0 <= i < |raws| ==> ReadsAs(raws[i], lines[i], vocab, keys)
  {
    lines := [];
    for i := 0 to |raws|
      invariant |lines| == i
      invariant forall k :: 0 <= k < i ==> ReadsAs(raws[k], lines[k], vocab, keys)
    {
      var line := ReadLine(raws[i], vocab, keys);
      lines := lines + [line];
    }
  }
}
