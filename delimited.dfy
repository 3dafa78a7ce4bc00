/** Tab-delimited lines, as the export of a memory writes them: the cells of a row
    joined by tabs. */
module Delimited {

  /** The cells separated by one tab each. */
  function TabJoin(cells: seq<string>): string
  {
    if cells == [] then ""
    else if |cells| == 1 then cells[0]
    else cells[0] + "\t" + TabJoin(cells[1..])
  }

  /** Cutting a line at every tab: the inverse of `TabJoin`. */
  function Split(s: string): (r: seq<string>)
    ensures |r| >= 1
  {
    if s == [] then [""]
    else
      var rest := Split(s[1..]);
      if s[0] == '\t' then [""] + rest else [[s[0]] + rest[0]] + rest[1..]
  }

  predicate TabFree(s: string)
  {
    forall i :: 0 <= i < |s| ==> s[i] != '\t'
  }

  /** The line building loop of `exportDelimited` as written: a tab goes before a
      cell only when the line built so far is not empty. */
  function JoinAsWritten(cells: seq<string>, n: nat): string
    requires n <= |cells|
  {
    if n == 0 then ""
    else
      var line := JoinAsWritten(cells, n - 1);
      (if line == "" then line else line + "\t") + cells[n - 1]
  }

  lemma {:induction false} SplitTabFree(c: string)
    requires TabFree(c)
    ensures Split(c) == [c]
  {
    if c != [] {
      SplitTabFree(c[1..]);
      assert [c[0]] + c[1..] == c;
    }
  }

  lemma {:induction false} SplitCell(c: string, t: string)
    requires TabFree(c)
    ensures Split(c + "\t" + t) == [c] + Split(t)
  {
    if c == [] {
      assert c + "\t" + t == "\t" + t;
      assert ("\t" + t)[1..] == t;
    } else {
      SplitCell(c[1..], t);
      assert (c + "\t" + t)[1..] == c[1..] + "\t" + t;
      assert [c[0]] + c[1..] == c;
    }
  }

  /** Splitting a joined row gives back its cells, when no cell holds a tab. */
  lemma {:induction false} SplitTabJoin(cells: seq<string>)
    requires |cells| >= 1
    requires forall i :: 0 <= i < |cells| ==> TabFree(cells[i])
    ensures Split(TabJoin(cells)) == cells
  {
    if |cells| == 1 {
      SplitTabFree(cells[0]);
    } else {
      SplitTabJoin(cells[1..]);
      SplitCell(cells[0], TabJoin(cells[1..]));
    }
  }

  /** Joining one more cell adds a tab and the cell at the end. */
  lemma {:induction false} TabJoinSnoc(cells: seq<string>, c: string)
    requires |cells| >= 1
    ensures TabJoin(cells + [c]) == TabJoin(cells) + "\t" + c
  {
    if |cells| > 1 {
      TabJoinSnoc(cells[1..], c);
      assert (cells + [c])[1..] == cells[1..] + [c];
    }
  }

  /** As written, the loop joins like `TabJoin` once the first cell is not empty. */
  lemma {:induction false} JoinAsWrittenAgrees(cells: seq<string>, n: nat)
    requires 1 <= n <= |cells| && cells[0] != ""
    ensures JoinAsWritten(cells, n) == TabJoin(cells[..n])
  {
    if n == 1 {
      assert cells[..1] == [cells[0]];
    } else {
      JoinAsWrittenAgrees(cells, n - 1);
      assert JoinAsWritten(cells, n - 1) != "" by {
        JoinAsWrittenStart(cells, n - 1);
      }
      assert cells[..n] == cells[..n - 1] + [cells[n - 1]];
      TabJoinSnoc(cells[..n - 1], cells[n - 1]);
    }
  }

  lemma {:induction false} JoinAsWrittenStart(cells: seq<string>, n: nat)
    requires 1 <= n <= |cells| && cells[0] != ""
    ensures |JoinAsWritten(cells, n)| >= |cells[0]|
  {
    if n > 1 {
      JoinAsWrittenStart(cells, n - 1);
    }
  }

  /** An empty first cell loses its column: the row `["", "a"]` is written as "a",
      which reads back as the single cell "a", so "a" moves to the first column. */
  lemma EmptyFirstCellShiftsColumns()
    ensures JoinAsWritten(["", "a"], 2) == "a"
    ensures Split(JoinAsWritten(["", "a"], 2)) == ["a"] != ["", "a"]
  {
    assert JoinAsWritten(["", "a"], 1) == "";
    assert JoinAsWritten(["", "a"], 2) == "" + "a";
    SplitTabFree("a");
  }
}
