/** Concatenation of lists of lists. */
module Seqs {
  function Flatten<T>(ss: seq<seq<T>>): seq<T> {
    if ss == [] then [] else Flatten(ss[..|ss| - 1]) + ss[|ss| - 1]
  }

  lemma FlattenLast<T>(ss: seq<seq<T>>)
    requires ss != []
    ensures Flatten(ss) == Flatten(ss[..|ss| - 1]) + ss[|ss| - 1]
  {
  }

  lemma {:induction false} FlattenAppend<T>(x: seq<seq<T>>, y: seq<seq<T>>)
    ensures Flatten(x + y) == Flatten(x) + Flatten(y)
    decreases |y|
  {
    if y == [] {
      assert x + y == x;
    } else {
      hide Flatten;
      FlattenLast(x + y);
      FlattenLast(y);
      assert (x + y)[..|x + y| - 1] == x + y[..|y| - 1];
      FlattenAppend(x, y[..|y| - 1]);
    }
  }

  lemma FlattenOne<T>(s: seq<T>)
    ensures Flatten([s]) == s
  {
    assert [s][..0] == [];
  }

  lemma FlattenSnoc<T>(ss: seq<seq<T>>, s: seq<T>)
    ensures Flatten(ss + [s]) == Flatten(ss) + s
  {
    FlattenAppend(ss, [s]);
    FlattenOne(s);
  }

  lemma FlattenCons<T>(s: seq<T>, ss: seq<seq<T>>)
    ensures Flatten([s] + ss) == s + Flatten(ss)
  {
    FlattenAppend([s], ss);
    FlattenOne(s);
  }

  /** One element and what stands on either side of it. */
  lemma FlattenAt<T>(ss: seq<seq<T>>, j: nat)
    requires j < |ss|
    ensures Flatten(ss) == Flatten(ss[..j]) + ss[j] + Flatten(ss[j + 1..])
  {
    hide Flatten;
    Around(ss, j);
    FlattenMiddle(ss[..j], ss[j], ss[j + 1..]);
  }

  lemma Around<T>(s: seq<T>, j: nat)
    requires j < |s|
    ensures s == s[..j] + [s[j]] + s[j + 1..]
  {
  }

  lemma FlattenMiddle<T>(x: seq<seq<T>>, s: seq<T>, y: seq<seq<T>>)
    ensures Flatten(x + [s] + y) == Flatten(x) + s + Flatten(y)
  {
    hide Flatten;
    FlattenAppend(x + [s], y);
    FlattenSnoc(x, s);
  }

  /** Everything before a place, and everything from it on. */
  lemma FlattenSplit<T>(ss: seq<seq<T>>, j: nat)
    requires j <= |ss|
    ensures Flatten(ss) == Flatten(ss[..j]) + Flatten(ss[j..])
  {
    hide Flatten;
    FlattenAppend(ss[..j], ss[j..]);
    assert ss == ss[..j] + ss[j..];
  }

  lemma FlattenFrom<T>(ss: seq<seq<T>>, j: nat)
    requires j < |ss|
    ensures Flatten(ss[j..]) == ss[j] + Flatten(ss[j + 1..])
  {
    hide Flatten;
    FlattenCons(ss[j], ss[j + 1..]);
    assert ss[j..] == [ss[j]] + ss[j + 1..];
  }
}
