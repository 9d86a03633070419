/** `Array.prototype.join`, which `toCSV` uses, and a splitter that undoes it when no cell holds the delimiter. */
module Csv {

  /** The cells separated by `d`; no cell is quoted or escaped. */
  function Join(cells: seq<string>, d: string): string {
    if cells == [] then ""
    else if |cells| == 1 then cells[0]
    else cells[0] + d + Join(cells[1..], d)
  }

  /** Splits `s` at every occurrence of `c`; the result always has at least one piece. */
  function Split(s: string, c: char): (r: seq<string>)
    ensures |r| >= 1
  {
    if s == [] then [""]
    else
      var rest := Split(s[1..], c);
      if s[0] == c then [""] + rest else [[s[0]] + rest[0]] + rest[1..]
  }

  /** The separator `toCSV` uses: `options.delimiter` when truthy, `","` otherwise. */
  function Delimiter(delimiter: string): (d: string)
    ensures d != ""
    ensures delimiter != "" ==> d == delimiter
    ensures delimiter == "" ==> d == ","
  {
    if delimiter != "" then delimiter else ","
  }

  /** A prefix free of `c` glues onto the first piece of what follows it. */
  lemma {:induction false} SplitPrefix(x: string, tail: string, c: char)
    requires c !in x
    ensures Split(x + tail, c) == [x + Split(tail, c)[0]] + Split(tail, c)[1..]
  {
    if x != [] {
      assert (x + tail)[1..] == x[1..] + tail;
      SplitPrefix(x[1..], tail, c);
      assert [x[0]] + (x[1..] + Split(tail, c)[0]) == x + Split(tail, c)[0];
    } else {
      var r := Split(tail, c);
      assert x + tail == tail && x + r[0] == r[0];
      assert [r[0]] + r[1..] == r;
    }
  }

  /** Joining with a one-character delimiter that no cell contains, then splitting on it, gives the cells back. */
  lemma {:induction false} SplitJoin(cells: seq<string>, c: char)
    requires |cells| >= 1
    requires forall i :: 0 <= i < |cells| ==> c !in cells[i]
    ensures Split(Join(cells, [c]), c) == cells
  {
    if |cells| == 1 {
      SplitPrefix(cells[0], [], c);
      assert cells[0] + [] == cells[0];
    } else {
      var rest := Join(cells[1..], [c]);
      assert Join(cells, [c]) == cells[0] + ([c] + rest);
      SplitPrefix(cells[0], [c] + rest, c);
      assert ([c] + rest)[1..] == rest;
      SplitJoin(cells[1..], c);
      assert Split([c] + rest, c) == [""] + cells[1..];
      assert cells[0] + "" == cells[0];
      assert [cells[0]] + cells[1..] == cells;
    }
  }

  /** Two set fields `"value a"` and `"value b"`, joined with the default delimiter and with `"#"`: `"value a,value b"` and `"value a#value b"`. */
  lemma JoinTwoCells()
    ensures Join(["value a", "value b"], Delimiter("")) == "value a,value b"
    ensures Join(["value a", "value b"], Delimiter("#")) == "value a#value b"
  {
  }
}
