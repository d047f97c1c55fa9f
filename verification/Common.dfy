/** Vocabulary shared by every component: optional values, bytes and 64-bit arithmetic. */
module Common {

  datatype Option<+T> = None | Some(value: T)

  newtype byte = x: int | 0 <= x < 256

  type Bytes = seq<byte>

  const U64: nat := 0x1_0000_0000_0000_0000

  /** `a - b` on `u64` in a release build, which wraps around instead of failing. */
  function WrapSub(a: nat, b: nat): (r: nat)
    requires a < U64 && b < U64
    ensures r < U64
    ensures b <= a ==> r == a - b
  {
    if b <= a then a - b else a + U64 - b
  }

  function Min(a: int, b: int): (m: int) { if a <= b then a else b }

  function Max(a: int, b: int): (m: int) { if a <= b then b else a }

  lemma InitAndLast<T>(s: seq<T>)
    requires s != []
    ensures s[..|s| - 1] + [s[|s| - 1]] == s
  {
  }

  lemma InitOfAppended<T>(s: seq<T>, x: T)
    ensures (s + [x])[..|s + [x]| - 1] == s
  {
  }

  lemma PrefixGrows<T>(s: seq<T>, i: nat)
    requires i < |s|
    ensures s[..i + 1] == s[..i] + [s[i]]
  {
  }

  lemma Associates<T>(a: seq<T>, b: seq<T>, c: seq<T>)
    ensures a + b + c == a + (b + c)
  {
  }

  ghost predicate EndsWith<T>(s: seq<T>, end: seq<T>)
  {
    |end| <= |s| && s[|s| - |end|..] == end
  }

  lemma SplitEnd<T>(s: seq<T>, end: seq<T>)
    requires EndsWith(s, end)
    ensures s == s[..|s| - |end|] + end
  {
  }

  lemma AppendedEnd<T>(front: seq<T>, end: seq<T>)
    ensures EndsWith(front + end, end)
  {
  }

  /** The chosen positions, in order. */
  ghost predicate Enumerates(at: seq<nat>, chosen: set<nat>)
  {
    && (forall j, k :: 0 <= j < k < |at| ==> at[j] < at[k])
    && (forall j :: 0 <= j < |at| ==> at[j] in chosen)
    && (forall i {:trigger i in at} :: i in chosen ==> i in at)
  }

  lemma EnumeratesMore(at: seq<nat>, chosen: set<nat>, n: nat)
    requires Enumerates(at, chosen) && forall i :: i in chosen ==> i < n
    ensures Enumerates(at + [n], chosen + {n})
  {
    forall i | i in chosen + {n}
      ensures i in at + [n]
    {
      if i != n {
        assert i in at;
      } else {
        assert (at + [n])[|at|] == n;
      }
    }
  }

  /** The elements at these positions. */
  ghost predicate PicksAt<T>(out: seq<T>, s: seq<T>, at: seq<nat>)
  {
    |out| == |at| && forall j :: 0 <= j < |at| ==> at[j] < |s| && out[j] == s[at[j]]
  }

  lemma PicksMore<T>(out: seq<T>, s: seq<T>, at: seq<nat>)
    requires s != [] && PicksAt(out, s[..|s| - 1], at)
    ensures PicksAt(out, s, at) && PicksAt(out + [s[|s| - 1]], s, at + [|s| - 1])
  {
  }
}
