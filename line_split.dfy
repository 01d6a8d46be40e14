/** `strings.Split(s, "\n")` and the byte positions of the pieces it returns.
    Start(ls, i) is the offset at which line i begins once every earlier line is
    counted with the newline the split removed; End(ls, i) is where line i ends,
    its own newline included. */
module LineSplit {

  /** The pieces of s between newlines; a trailing newline leaves a trailing "". */
  function Split(s: string): (ls: seq<string>)
    ensures 1 <= |ls|
    ensures forall i :: 0 <= i < |ls| ==> '\n' !in ls[i]
  {
    if s == [] then [""]
    else
      var rest := Split(s[1..]);
      if s[0] == '\n' then [""] + rest
      else [[s[0]] + rest[0]] + rest[1..]
  }

  /** The pieces put back together with a newline between neighbours. */
  function Join(ls: seq<string>): string
    requires 1 <= |ls|
  {
    if |ls| == 1 then ls[0] else ls[0] + "\n" + Join(ls[1..])
  }

  /** Joining the pieces gives back the input. */
  lemma {:induction false} SplitJoin(s: string)
    ensures Join(Split(s)) == s
  {
    if s != [] {
      var rest := Split(s[1..]);
      SplitJoin(s[1..]);
      if s[0] == '\n' {
        assert ([""] + rest)[1..] == rest;
      } else if |rest| > 1 {
        var ls := [[s[0]] + rest[0]] + rest[1..];
        assert ls[1..] == rest[1..];
        assert Join(ls) == [s[0]] + (rest[0] + "\n" + Join(rest[1..]));
      }
    }
  }

  lemma {:induction false} SplitPrefix(w: string, s: string)
    requires '\n' !in w
    ensures Split(w + s) == [w + Split(s)[0]] + Split(s)[1..]
  {
    if w != [] {
      SplitPrefix(w[1..], s);
      assert (w + s)[1..] == w[1..] + s;
      assert [w[0]] + (w[1..] + Split(s)[0]) == w + Split(s)[0];
    } else {
      assert w + s == s;
      assert w + Split(s)[0] == Split(s)[0];
      assert Split(s) == [Split(s)[0]] + Split(s)[1..];
    }
  }

  /** Splitting newline-free pieces joined by newlines gives the pieces back,
      so Split is the only split with the two properties above. */
  lemma {:induction false} JoinSplit(ls: seq<string>)
    requires 1 <= |ls|
    requires forall i :: 0 <= i < |ls| ==> '\n' !in ls[i]
    ensures Split(Join(ls)) == ls
  {
    if |ls| == 1 {
      SplitPrefix(ls[0], "");
      assert ls[0] + "" == ls[0];
    } else {
      var j := Join(ls[1..]);
      JoinSplit(ls[1..]);
      assert Join(ls) == ls[0] + ("\n" + j);
      SplitPrefix(ls[0], "\n" + j);
      assert ("\n" + j)[1..] == j;
      assert Split("\n" + j) == [""] + ls[1..];
      assert ([""] + ls[1..])[1..] == ls[1..];
      assert ls[0] + "" == ls[0];
      assert ls == [ls[0]] + ls[1..];
    }
  }

  /** Offset at which line i begins. */
  function Start(ls: seq<string>, i: nat): nat
    requires i <= |ls|
  {
    if i == 0 then 0 else Start(ls, i - 1) + |ls[i - 1]| + 1
  }

  /** Offset just past line i's (removed) newline: Start(ls, i + 1). */
  function End(ls: seq<string>, i: nat): nat
    requires i < |ls|
  {
    Start(ls, i) + |ls[i]| + 1
  }

  lemma {:induction false} StartShift(ls: seq<string>, i: nat)
    requires i < |ls|
    ensures Start(ls, i + 1) == |ls[0]| + 1 + Start(ls[1..], i)
  {
    if i > 0 {
      StartShift(ls, i - 1);
      assert ls[1..][i - 1] == ls[i];
    }
  }

  /** Each later line begins at least one byte after each earlier one. */
  lemma {:induction false} StartIncreasing(ls: seq<string>, i: nat, j: nat)
    requires i <= j <= |ls|
    ensures Start(ls, i) + (j - i) <= Start(ls, j)
    decreases j
  {
    if i < j {
      StartIncreasing(ls, i, j - 1);
    }
  }

  /** The lines, each counted as its length plus one, add up to the joined length plus one. */
  lemma {:induction false} JoinLength(ls: seq<string>)
    requires 1 <= |ls|
    ensures Start(ls, |ls|) == |Join(ls)| + 1
  {
    if |ls| > 1 {
      JoinLength(ls[1..]);
      StartShift(ls, |ls| - 1);
    }
  }

  /** The lines of a split, each counted as its length plus one, add up to |s| + 1. */
  lemma SplitLength(s: string)
    ensures Start(Split(s), |Split(s)|) == |s| + 1
  {
    SplitJoin(s);
    JoinLength(Split(s));
  }

  /** Byte c of line k sits at offset Start(ls, k) + c of the joined text, and
      offset Start(ls, k) + |ls[k]| holds the newline that ended line k. */
  lemma {:induction false} JoinAt(ls: seq<string>, k: nat, c: nat)
    requires k < |ls| && c <= |ls[k]|
    requires Start(ls, k) + c < |Join(ls)|
    ensures Join(ls)[Start(ls, k) + c] == if c < |ls[k]| then ls[k][c] else '\n'
  {
    if k > 0 {
      StartShift(ls, k - 1);
      assert |ls| > 1;
      assert ls[1..][k - 1] == ls[k];
      var tail := Join(ls[1..]);
      assert Join(ls) == ls[0] + "\n" + tail;
      JoinAt(ls[1..], k - 1, c);
      assert Join(ls)[|ls[0]| + 1 + Start(ls[1..], k - 1) + c] == tail[Start(ls[1..], k - 1) + c];
    }
  }
}
