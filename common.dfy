/** Small value types and sequence helpers shared by the pipeline model. */
module Common {

  /** A cell or field that may be missing (pandas NaN). */
  datatype Option<T> = None | Some(value: T)

  /** The outcome of an operation that can raise. */
  datatype Result<T, E> = Success(value: T) | Failure(error: E)

  /** A named entry: of a zip archive, or a file of the data directory. */
  datatype Named<D> = Named(name: string, data: D)

  /** `namelist()`: the names of the entries, in stored order. */
  function Names<D>(es: seq<Named<D>>): (r: seq<string>)
    ensures |r| == |es|
  {
    seq(|es|, i requires 0 <= i < |es| => es[i].name)
  }

  /** A name that is not the last entry's is a name of the entries before it. */
  lemma NameBeforeLast<D>(es: seq<Named<D>>, name: string)
    requires name in Names(es) && es[|es| - 1].name != name
    ensures name in Names(es[..|es| - 1])
  {
    var k :| 0 <= k < |es| && Names(es)[k] == name;
    assert Names(es[..|es| - 1])[k] == name;
  }

  /** The position of the last entry of a given name. */
  function LastIndex<D>(es: seq<Named<D>>, name: string): (i: nat)
    requires name in Names(es)
    ensures i < |es| && es[i].name == name
    ensures forall j :: i < j < |es| ==> es[j].name != name
  {
    var n := |es| - 1;
    if es[n].name == name then n
    else
      NameBeforeLast(es, name);
      LastIndex(es[..n], name)
  }

  /** `open(name)`: the content of the last entry of that name, as `zipfile`'s name
      index keeps it. */
  function Lookup<D>(es: seq<Named<D>>, name: string): (d: D)
    requires name in Names(es)
    ensures exists i :: (0 <= i < |es| && es[i].name == name && es[i].data == d
      && forall j :: i < j < |es| ==> es[j].name != name)
  {
    es[LastIndex(es, name)].data
  }

  /** Sum of a sequence of integers. */
  function Sum(s: seq<int>): int
  {
    if s == [] then 0 else s[0] + Sum(s[1..])
  }

  lemma {:induction false} SumAppend(a: seq<int>, b: seq<int>)
    ensures Sum(a + b) == Sum(a) + Sum(b)
  {
    if a == [] {
      assert a + b == b;
    } else {
      assert (a + b)[1..] == a[1..] + b;
      SumAppend(a[1..], b);
    }
  }

  lemma {:induction false} SumNonNegative(s: seq<int>)
    requires forall i :: 0 <= i < |s| ==> s[i] >= 0
    ensures Sum(s) >= 0
  {
    if s != [] {
      SumNonNegative(s[1..]);
    }
  }

  lemma ConcatAssoc<T>(a: seq<T>, b: seq<T>, c: seq<T>)
    ensures (a + b) + c == a + (b + c)
  {
  }

  /** The `k`-th element of a sequence is the `k - 1`-th of its tail. */
  lemma TailAt<T>(s: seq<T>, k: int)
    requires 1 <= k < |s|
    ensures s[1..][k - 1] == s[k]
  {
  }

  /** Concatenation of a sequence of sequences, in order (pandas concat of a list of tables). */
  function Flatten<T>(ss: seq<seq<T>>): seq<T>
  {
    if ss == [] then [] else ss[0] + Flatten(ss[1..])
  }

  lemma {:induction false} FlattenAppend<T>(a: seq<seq<T>>, b: seq<seq<T>>)
    ensures Flatten(a + b) == Flatten(a) + Flatten(b)
  {
    if a == [] {
      assert a + b == b;
    } else {
      assert (a + b)[1..] == a[1..] + b;
      FlattenAppend(a[1..], b);
    }
  }

  /** Every element of the concatenation comes from one of the parts. */
  lemma {:induction false} FlattenMember<T>(ss: seq<seq<T>>, x: T)
    requires x in Flatten(ss)
    ensures exists k :: 0 <= k < |ss| && x in ss[k]
  {
    if x in ss[0] {
      assert x in ss[0];
    } else {
      FlattenMember(ss[1..], x);
      var k :| 0 <= k < |ss[1..]| && x in ss[1..][k];
      assert x in ss[k + 1];
    }
  }

  /** When every part has length `n`, the concatenation has `|ss| * n` elements. */
  lemma {:induction false} FlattenUniformLength<T>(ss: seq<seq<T>>, n: nat)
    requires forall i :: 0 <= i < |ss| ==> |ss[i]| == n
    ensures |Flatten(ss)| == |ss| * n
  {
    if ss != [] {
      FlattenUniformLength(ss[1..], n);
    }
  }

  /** When every part has length `n`, element `k` of part `i` sits at `i * n + k`. */
  lemma {:induction false} FlattenUniformAt<T>(ss: seq<seq<T>>, n: nat, i: nat, k: nat)
    requires forall j :: 0 <= j < |ss| ==> |ss[j]| == n
    requires i < |ss| && k < n
    ensures i * n + k < |Flatten(ss)| && Flatten(ss)[i * n + k] == ss[i][k]
  {
    if i > 0 {
      FlattenUniformAt(ss[1..], n, i - 1, k);
      assert i * n + k == n + ((i - 1) * n + k);
    }
  }
}
