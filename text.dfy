/** The text composer of the analyze endpoint: one comparison string per row,
    made of the selected columns' values joined by a single space. */
module Text {
  import opened Types

  /** `sep.join(parts)`: the parts in order, with `sep` between neighbours. */
  function Join(sep: string, parts: seq<string>): (r: string)
    ensures |parts| == 0 ==> r == ""
    ensures |parts| == 1 ==> r == parts[0]
    ensures |parts| >= 1 ==> |parts[0]| <= |r| && r[..|parts[0]|] == parts[0]
    ensures |parts| >= 2 ==> |parts[0]| + |sep| <= |r| && r[|parts[0]|..|parts[0]| + |sep|] == sep
  {
    if |parts| == 0 then ""
    else if |parts| == 1 then parts[0]
    else parts[0] + sep + Join(sep, parts[1..])
  }

  /** `s.split(c)` for a one-character separator: the pieces between the
      occurrences of `c`, empty pieces included. Used as the inverse of Join. */
  function Split(c: char, s: string): (r: seq<string>)
    ensures |r| >= 1
    ensures forall k :: 0 <= k < |r| ==> c !in r[k]
  {
    if |s| == 0 then [""]
    else
      var rest := Split(c, s[1..]);
      if s[0] == c then [""] + rest
      else [[s[0]] + rest[0]] + rest[1..]
  }

  lemma {:induction false} SplitWithoutSeparator(c: char, p: string)
    requires c !in p
    ensures Split(c, p) == [p]
  {
    if |p| > 0 {
      SplitWithoutSeparator(c, p[1..]);
      assert [p[0]] + p[1..] == p;
    }
  }

  lemma {:induction false} SplitAtFirstSeparator(c: char, p: string, s: string)
    requires c !in p
    ensures Split(c, p + [c] + s) == [p] + Split(c, s)
  {
    if |p| == 0 {
      assert (p + [c] + s)[1..] == s;
    } else {
      SplitAtFirstSeparator(c, p[1..], s);
      assert (p + [c] + s)[1..] == p[1..] + [c] + s;
      assert [p[0]] + p[1..] == p;
    }
  }

  /** Joining with a one-character separator and splitting on it again gives
      back the parts, as long as no part contains the separator. */
  lemma {:induction false} SplitJoin(c: char, parts: seq<string>)
    requires |parts| >= 1
    requires forall k :: 0 <= k < |parts| ==> c !in parts[k]
    ensures Split(c, Join([c], parts)) == parts
  {
    if |parts| == 1 {
      SplitWithoutSeparator(c, parts[0]);
    } else {
      SplitJoin(c, parts[1..]);
      SplitAtFirstSeparator(c, parts[0], Join([c], parts[1..]));
      assert [parts[0]] + parts[1..] == parts;
    }
  }

  /** Every row holds every selected column. */
  predicate HasColumns(rows: seq<Row>, cols: seq<string>)
  {
    forall i, k :: 0 <= i < |rows| && 0 <= k < |cols| ==> cols[k] in rows[i]
  }

  /** The values of `row` under `cols`, in the order of `cols`. */
  function Project(row: Row, cols: seq<string>): (r: seq<string>)
    requires forall k :: 0 <= k < |cols| ==> cols[k] in row
    ensures |r| == |cols|
    ensures forall k :: 0 <= k < |cols| ==> r[k] == row[cols[k]]
  {
    seq(|cols|, k requires 0 <= k < |cols| => row[cols[k]])
  }

  /** The strings handed to the encoder, one per row, in row order. */
  function CombinedTexts(rows: seq<Row>, cols: seq<string>): (r: seq<string>)
    requires HasColumns(rows, cols)
    ensures |r| == |rows|
    ensures |cols| == 0 ==> forall i :: 0 <= i < |rows| ==> r[i] == ""
    ensures |cols| >= 1 ==> forall i :: 0 <= i < |rows| ==>
              |rows[i][cols[0]]| <= |r[i]| && r[i][..|rows[i][cols[0]]|] == rows[i][cols[0]]
    ensures |cols| == 1 ==> forall i :: 0 <= i < |rows| ==> r[i] == rows[i][cols[0]]
  {
    seq(|rows|, i requires 0 <= i < |rows| => Join(" ", Project(rows[i], cols)))
  }

  /** A row's comparison text is its selected values, in column order,
      separated by single spaces: splitting it at the spaces recovers them
      whenever none of them contains a space itself. */
  lemma CombinedTextRecoversValues(rows: seq<Row>, cols: seq<string>, i: nat)
    requires HasColumns(rows, cols)
    requires i < |rows| && |cols| >= 1
    requires forall k :: 0 <= k < |cols| ==> ' ' !in rows[i][cols[k]]
    ensures Split(' ', CombinedTexts(rows, cols)[i]) == Project(rows[i], cols)
  {
    SplitJoin(' ', Project(rows[i], cols));
  }
}
