/**
 * The collection-file line reader (`VeryStupidParser`): a cursor over a
 * string that hands out the maximal runs of characters other than '\n' and
 * '\r', skipping every run of line-break characters in between, so that
 * blank lines never show up as lines.
 */
module LineReader {
  import opened Wrappers

  predicate IsBreak(c: char) { c == '\n' || c == '\r' }

  /** First position at or after i that does not hold a line-break character. */
  function BlankEnd(s: string, i: nat): (j: nat)
    requires i <= |s|
    ensures i <= j <= |s|
    ensures j < |s| ==> !IsBreak(s[j])
    decreases |s| - i
  {
    if i < |s| && IsBreak(s[i]) then BlankEnd(s, i + 1) else i
  }

  /** Everything BlankEnd skips is a line break. */
  lemma {:induction false} BlankEndRun(s: string, i: nat)
    requires i <= |s|
    ensures forall k :: i <= k < BlankEnd(s, i) ==> IsBreak(s[k])
    decreases |s| - i
  {
    if i < |s| && IsBreak(s[i]) {
      BlankEndRun(s, i + 1);
    }
  }

  /** First position at or after i that holds a line-break character, or the end. */
  function LineEnd(s: string, i: nat): (j: nat)
    requires i <= |s|
    ensures i <= j <= |s|
    ensures j < |s| ==> IsBreak(s[j])
    decreases |s| - i
  {
    if i < |s| && !IsBreak(s[i]) then LineEnd(s, i + 1) else i
  }

  /** A line holds no line break. */
  lemma {:induction false} LineEndRun(s: string, i: nat)
    requires i <= |s|
    ensures forall k :: i <= k < LineEnd(s, i) ==> !IsBreak(s[k])
    decreases |s| - i
  {
    if i < |s| && !IsBreak(s[i]) {
      LineEndRun(s, i + 1);
    }
  }

  /** The lines a reader positioned at i still hands out, in order. */
  function Lines(s: string, i: nat): seq<string>
    requires i <= |s|
    decreases |s| - i
  {
    if i == |s| then []
    else
      var e := LineEnd(s, i);
      assert BlankEnd(s, e) > i by {
        if e == i { assert IsBreak(s[i]); }
      }
      [s[i..e]] + Lines(s, BlankEnd(s, e))
  }

  /** The k-th line of ls, or the empty string a reader at the end of its input returns. */
  function LineAt(ls: seq<string>, k: nat): (r: string)
    ensures k < |ls| ==> r == ls[k]
    ensures k >= |ls| ==> r == ""
  {
    if k < |ls| then ls[k] else ""
  }

  /** What remains after n lines have been read (nothing once the reader is at the end). */
  function Drop(ls: seq<string>, n: nat): (r: seq<string>)
    ensures |r| == if n <= |ls| then |ls| - n else 0
  {
    if n == 0 || ls == [] then ls else Drop(ls[1..], n - 1)
  }

  lemma {:induction false} DropLineAt(ls: seq<string>, n: nat, k: nat)
    ensures LineAt(Drop(ls, n), k) == LineAt(ls, n + k)
    decreases n
  {
    if n != 0 && ls != [] {
      DropLineAt(ls[1..], n - 1, k);
    }
  }

  lemma {:induction false} DropDrop(ls: seq<string>, n: nat, m: nat)
    ensures Drop(Drop(ls, n), m) == Drop(ls, n + m)
    decreases n
  {
    if n != 0 && ls != [] {
      DropDrop(ls[1..], n - 1, m);
    } else if ls == [] {
      assert Drop(ls, n + m) == [];
    }
  }

  /** One more line read after n: what it returns and what remains. */
  lemma DropStep(ls: seq<string>, n: nat)
    ensures LineAt(Drop(ls, n), 0) == LineAt(ls, n)
    ensures Drop(Drop(ls, n), 1) == Drop(ls, n + 1)
  {
    DropLineAt(ls, n, 0);
    DropDrop(ls, n, 1);
  }

  predicate NoBreaks(s: string) { forall k :: 0 <= k < |s| ==> !IsBreak(s[k]) }

  /** From a position that is not on a line break, every line is non-empty and holds no line break. */
  lemma {:induction false} LinesAreNonEmptyAndUnbroken(s: string, i: nat)
    requires i <= |s| && (i < |s| ==> !IsBreak(s[i]))
    ensures forall k :: 0 <= k < |Lines(s, i)| ==> Lines(s, i)[k] != [] && NoBreaks(Lines(s, i)[k])
    decreases |s| - i
  {
    if i < |s| {
      var e := LineEnd(s, i);
      var b := BlankEnd(s, e);
      assert e > i;
      LineEndRun(s, i);
      LinesAreNonEmptyAndUnbroken(s, b);
      var ls := Lines(s, i);
      assert ls == [s[i..e]] + Lines(s, b);
      forall k | 0 <= k < |ls| ensures ls[k] != [] && NoBreaks(ls[k]) {
        if k == 0 {
          assert |ls[0]| == e - i;
          forall j | 0 <= j < |ls[0]| ensures !IsBreak(ls[0][j]) {
            assert ls[0][j] == s[i + j];
          }
        } else {
          assert ls[k] == Lines(s, b)[k - 1];
        }
      }
    }
  }

  /** The reference meaning of a line reader: the text with every line-break character removed. */
  function WithoutBreaks(s: string): (r: string)
    ensures |r| <= |s|
  {
    if s == [] then [] else (if IsBreak(s[0]) then [] else [s[0]]) + WithoutBreaks(s[1..])
  }

  function Concat(ls: seq<string>): string
  {
    if ls == [] then [] else ls[0] + Concat(ls[1..])
  }

  lemma {:induction false} WithoutBreaksAppend(a: string, b: string)
    ensures WithoutBreaks(a + b) == WithoutBreaks(a) + WithoutBreaks(b)
    decreases |a|
  {
    if a != [] {
      assert (a + b)[1..] == a[1..] + b;
      WithoutBreaksAppend(a[1..], b);
    } else {
      assert a + b == b;
    }
  }

  lemma {:induction false} WithoutBreaksOfUnbroken(s: string)
    requires NoBreaks(s)
    ensures WithoutBreaks(s) == s
    decreases |s|
  {
    if s != [] {
      WithoutBreaksOfUnbroken(s[1..]);
    }
  }

  lemma {:induction false} WithoutBreaksOfBlank(s: string)
    requires forall k :: 0 <= k < |s| ==> IsBreak(s[k])
    ensures WithoutBreaks(s) == []
    decreases |s|
  {
    if s != [] {
      WithoutBreaksOfBlank(s[1..]);
    }
  }

  /** Nothing but line breaks is lost: the lines, put back together, are the text without its line breaks. */
  lemma {:induction false} LinesCoverText(s: string, i: nat)
    requires i <= |s|
    ensures Concat(Lines(s, i)) == WithoutBreaks(s[i..])
    decreases |s| - i
  {
    if i == |s| {
      assert s[i..] == [];
    } else {
      var e := LineEnd(s, i);
      var b := BlankEnd(s, e);
      if e == i { assert IsBreak(s[i]); }
      assert b > i;
      LineEndRun(s, i);
      BlankEndRun(s, e);
      LinesCoverText(s, b);
      WithoutBreaksOfLine(s, i, e, b);
      var ls := Lines(s, i);
      assert ls[0] == s[i..e] && ls[1..] == Lines(s, b);
    }
  }

  /** A line followed by its run of line breaks loses just the line breaks. */
  lemma WithoutBreaksOfLine(s: string, i: nat, e: nat, b: nat)
    requires i <= e <= b <= |s|
    requires forall k :: i <= k < e ==> !IsBreak(s[k])
    requires forall k :: e <= k < b ==> IsBreak(s[k])
    ensures WithoutBreaks(s[i..]) == s[i..e] + WithoutBreaks(s[b..])
  {
    var x, y, z := s[i..e], s[e..b], s[b..];
    assert s[i..] == (x + y) + z;
    WithoutBreaksAppend(x + y, z);
    WithoutBreaksAppend(x, y);
    WithoutBreaksOfUnbroken(x);
    WithoutBreaksOfBlank(y);
  }

  /** `VeryStupidParser`: `content` is fixed, `index` only moves forward. */
  class VeryStupidParser {
    const content: string
    var index: nat

    /** The cursor is in bounds and, as after every public operation, not on a line break. */
    ghost predicate Valid()
      reads this
    {
      index <= |content| && (index < |content| ==> !IsBreak(content[index]))
    }

    predicate EndOfFile()
      reads this
    {
      index >= |content|
    }

    /** The lines still to be read. */
    ghost function Remaining(): seq<string>
      reads this
      requires index <= |content|
    {
      Lines(content, index)
    }

    constructor (content: string)
      ensures this.content == content && Valid()
      ensures index == BlankEnd(content, 0)
      ensures Remaining() == Lines(content, BlankEnd(content, 0))
    {
      this.content := content;
      index := 0;
      new;
      SkipBlank();
    }

    /** Moves past a run of '\n' and '\r'. */
    method SkipBlank()
      requires index <= |content|
      modifies this
      ensures index == BlankEnd(content, old(index))
    {
      while index < |content| && IsBreak(content[index])
        invariant old(index) <= index <= |content|
        invariant BlankEnd(content, index) == BlankEnd(content, old(index))
        decreases |content| - index
      {
        index := index + 1;
      }
    }

    /**
     * Returns the characters up to the next line break (None when the caller
     * discards them, where the C# program returns null) and skips the line breaks after them.
     */
    method ReadLine(discard: bool) returns (line: Option<string>)
      requires Valid()
      modifies this
      ensures Valid() && old(index) <= index
      ensures line.None? <==> discard
      ensures line.Some? ==> line.value == content[old(index)..LineEnd(content, old(index))]
      ensures index == BlankEnd(content, LineEnd(content, old(index)))
      ensures line.Some? ==> line.value == LineAt(old(Remaining()), 0)
      ensures Remaining() == Drop(old(Remaining()), 1)
      ensures line.Some? && !old(EndOfFile()) ==> line.value != []
    {
      var start := index;
      while index < |content| && !IsBreak(content[index])
        invariant start <= index <= |content|
        invariant LineEnd(content, index) == LineEnd(content, start)
        decreases |content| - index
      {
        index := index + 1;
      }
      line := if discard then None else Some(content[start..index]);
      SkipBlank();
      if start == |content| {
        assert index == start;
      } else {
        assert index > start;
      }
    }
  }

}
