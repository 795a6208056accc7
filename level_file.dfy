/** The level-list splitter of Divergence (`initLevels`).
    The level file holds one grid row per line; a line consisting of a single
    "," closes the level made of the rows read since the previous ",". Each
    level becomes one definition string: its rows joined with '|'. */
module LevelFile {

  /** The line that closes a level. */
  const Separator: string := ","

  /** `rows` joined with '|' between consecutive rows (no trailing '|'). */
  function JoinRows(rows: seq<string>): string
  {
    if |rows| == 0 then ""
    else if |rows| == 1 then rows[0]
    else JoinRows(rows[..|rows| - 1]) + "|" + rows[|rows| - 1]
  }

  /** The groups of `xs` that an occurrence of `sep` closes, in order: the
      elements before the first `sep`, then those between the first and the
      second, and so on. The elements after the last `sep` belong to no
      group. */
  function Groups<T(==)>(xs: seq<T>, sep: T): seq<seq<T>>
  {
    if xs == [] then []
    else
      var later := Groups(xs[1..], sep);
      if xs[0] == sep then [[]] + later
      else if later == [] then []
      else [[xs[0]] + later[0]] + later[1..]
  }

  /** Each group joined into one definition string. */
  function JoinAll(groups: seq<seq<string>>): seq<string>
  {
    seq(|groups|, i requires 0 <= i < |groups| => JoinRows(groups[i]))
  }

  /** The level definitions a list of lines describes: one per separator
      line, made of the lines of its group joined with '|'. Lines after the
      last separator form no level. */
  function LevelDefs(lines: seq<string>): seq<string>
  {
    JoinAll(Groups(lines, Separator))
  }

  /** What `initLevels` needs of the file: `pop_back` on the accumulated
      text is only defined when a separator line closes at least one row,
      so no level may be empty. */
  predicate NoEmptyLevel(lines: seq<string>)
  {
    forall i :: 0 <= i < |lines| && lines[i] == Separator ==> i > 0 && lines[i - 1] != Separator
  }

  /** The line-splitting loop of `initLevels`, reading from `lines` instead
      of the file. `level` accumulates each row followed by '|'; a separator
      drops the trailing '|' and appends the level to the list. */
  method InitLevels(lines: seq<string>) returns (levels: seq<string>)
    requires NoEmptyLevel(lines)
    ensures levels == LevelDefs(lines)
  {
    levels := [];
    var level: string := "";
    ghost var start := 0;  // index of the first line of the level being read
    var i := 0;
    while i < |lines|
      invariant 0 <= start <= i <= |lines|
      invariant start == 0 || lines[start - 1] == Separator
      invariant Separator !in lines[start..i]
      invariant levels == LevelDefs(lines[..start])
      invariant level == Pending(lines[start..i])
    {
      var line := lines[i];
      if line == Separator {
        assert start < i;
        level := level[..|level| - 1];
        levels := levels + [level];
        level := "";
        SeparatorStep(lines, start, i);
        start := i + 1;
      } else {
        level := level + line + "|";
        RowStep(lines, start, i);
      }
      i := i + 1;
    }
    assert lines[..start] + lines[start..] == lines;
    assert lines[start..i] == lines[start..];
    AppendUnclosed(lines[..start], lines[start..], Separator);
  }

  /** The text `initLevels` holds while it reads the rows of a level: each row
      followed by '|'. */
  function Pending(rows: seq<string>): string
  {
    if rows == [] then "" else JoinRows(rows) + "|"
  }

  /** A separator line at `i` closes the level of the lines from `start`. */
  lemma SeparatorStep(lines: seq<string>, start: nat, i: nat)
    requires start < i < |lines| && lines[i] == Separator
    requires start == 0 || lines[start - 1] == Separator
    requires Separator !in lines[start..i]
    ensures Pending(lines[start..i])[..|Pending(lines[start..i])| - 1] == JoinRows(lines[start..i])
    ensures LevelDefs(lines[..i + 1]) == LevelDefs(lines[..start]) + [JoinRows(lines[start..i])]
  {
    ClosedGroup(lines[..start], lines[start..i]);
    assert lines[..start] + (lines[start..i] + [Separator]) == lines[..i + 1];
  }

  /** A row line at `i` is added to the pending level. */
  lemma RowStep(lines: seq<string>, start: nat, i: nat)
    requires start <= i < |lines| && lines[i] != Separator
    requires Separator !in lines[start..i]
    ensures Separator !in lines[start..i + 1]
    ensures Pending(lines[start..i]) + lines[i] + "|" == Pending(lines[start..i + 1])
  {
    assert lines[start..i + 1] == lines[start..i] + [lines[i]];
    if start < i {
      JoinRowsSnoc(lines[start..i], lines[i]);
    } else {
      assert lines[start..i + 1] == [lines[i]];
    }
  }

  /** Joining one more row adds a '|' and the row. */
  lemma JoinRowsSnoc(rows: seq<string>, row: string)
    requires rows != []
    ensures JoinRows(rows + [row]) == JoinRows(rows) + "|" + row
  {
  }

  /** One group is closed per occurrence of `sep`. */
  lemma {:induction false} GroupCount<T>(xs: seq<T>, sep: T)
    ensures |Groups(xs, sep)| == multiset(xs)[sep]
  {
    if xs != [] {
      assert xs == [xs[0]] + xs[1..];
      GroupCount(xs[1..], sep);
    }
  }

  /** Elements after the last `sep` form no group. */
  lemma {:induction false} AppendUnclosed<T>(done: seq<T>, rest: seq<T>, sep: T)
    requires sep !in rest
    ensures Groups(done + rest, sep) == Groups(done, sep)
  {
    if done == [] {
      assert done + rest == rest;
      assert multiset(rest)[sep] == 0;
      GroupCount(rest, sep);
    } else {
      assert (done + rest)[1..] == done[1..] + rest;
      AppendUnclosed(done[1..], rest, sep);
    }
  }

  /** The groups of a sequence split just after a `sep` are those of the two
      parts. */
  lemma {:induction false} SplitAfter<T>(done: seq<T>, rest: seq<T>, sep: T)
    requires done == [] || done[|done| - 1] == sep
    ensures Groups(done + rest, sep) == Groups(done, sep) + Groups(rest, sep)
  {
    if done == [] {
      assert done + rest == rest;
    } else {
      var d, tail := done[0], done[1..];
      assert done == [d] + tail;
      assert done + rest == [d] + (tail + rest);
      if tail == [] {
        assert tail + rest == rest;
        assert Groups(tail, sep) == [];
      } else {
        assert tail[|tail| - 1] == done[|done| - 1];
        SplitAfter(tail, rest, sep);
      }
      if d == sep {
        ConsSplitSep(d, tail, rest, sep);
      } else {
        ClosedGroupsNonEmpty(tail, sep);
        ConsSplitJoin(d, tail, rest, sep);
      }
    }
  }

  /** One step of `SplitAfter` when the front element is `sep`. */
  lemma ConsSplitSep<T>(d: T, tail: seq<T>, rest: seq<T>, sep: T)
    requires Groups(tail + rest, sep) == Groups(tail, sep) + Groups(rest, sep)
    requires d == sep
    ensures Groups([d] + (tail + rest), sep) == Groups([d] + tail, sep) + Groups(rest, sep)
  {
  }

  /** One step of `SplitAfter` when the front element joins a group. */
  lemma ConsSplitJoin<T>(d: T, tail: seq<T>, rest: seq<T>, sep: T)
    requires Groups(tail + rest, sep) == Groups(tail, sep) + Groups(rest, sep)
    requires d != sep && Groups(tail, sep) != []
    ensures Groups([d] + (tail + rest), sep) == Groups([d] + tail, sep) + Groups(rest, sep)
  {
  }

  /** A sequence that ends with `sep` closes at least one group. */
  lemma ClosedGroupsNonEmpty<T>(xs: seq<T>, sep: T)
    requires xs != [] && xs[|xs| - 1] == sep
    ensures Groups(xs, sep) != []
  {
  }

  /** Rows closed by one `sep` form exactly one group. */
  lemma {:induction false} OneGroup<T>(rows: seq<T>, sep: T)
    requires sep !in rows
    ensures Groups(rows + [sep], sep) == [rows]
  {
    if rows != [] {
      assert (rows + [sep])[1..] == rows[1..] + [sep];
      assert rows[0] in rows;
      OneGroup(rows[1..], sep);
      assert [rows[0]] + rows[1..] == rows;
    }
  }

  /** Appending a group that one separator closes adds exactly one level. */
  lemma ClosedGroup(done: seq<string>, rows: seq<string>)
    requires done == [] || done[|done| - 1] == Separator
    requires Separator !in rows
    ensures LevelDefs(done + (rows + [Separator])) == LevelDefs(done) + [JoinRows(rows)]
  {
    SplitAfter(done, rows + [Separator], Separator);
    OneGroup(rows, Separator);
  }

  /** One level is emitted per separator line. */
  lemma LevelCount(lines: seq<string>)
    ensures |LevelDefs(lines)| == multiset(lines)[Separator]
  {
    GroupCount(lines, Separator);
  }

  /** Lines that follow the last separator are dropped, whatever they hold. */
  lemma DropsTrailingLines(lines: seq<string>, tail: seq<string>)
    requires Separator !in tail
    ensures LevelDefs(lines + tail) == LevelDefs(lines)
  {
    AppendUnclosed(lines, tail, Separator);
  }

  /** A level of two rows, as a file holding "#.#", "#@#" and "," gives it. */
  lemma TwoRowExample()
    ensures LevelDefs(["#.#", "#@#", ",", "###"]) == ["#.#|#@#"]
  {
    var rows := ["#.#", "#@#"];
    assert |Separator| == 1 && |"#.#"| == |"#@#"| == |"###"| == 3;
    assert Separator !in rows && Separator !in ["###"];
    assert ["#.#", "#@#", ",", "###"] == (rows + [Separator]) + ["###"];
    DropsTrailingLines(rows + [Separator], ["###"]);
    OneGroup(rows, Separator);
    assert JoinRows(rows) == JoinRows(["#.#"]) + "|" + "#@#" == "#.#|#@#";
    assert LevelDefs(rows + [Separator]) == ["#.#|#@#"];
  }
}
