/** Python's `dict` built by successive assignments (which covers
    `dict(zip(keys, values))` and every `d[k] = v` loop of the dashboard),
    and Python's ordering and `sorted` on strings. */
module PyCollections {
  import opened PyText

  /** The dict left by `d[ks[i]] = vs[i]` for i = 0, 1, ... in turn,
      starting from `{}`: a later key overwrites an earlier one. */
  function Assign<K(==), V>(ks: seq<K>, vs: seq<V>): map<K, V>
    requires |ks| == |vs|
    decreases |ks|
  {
    if ks == [] then map[]
    else Assign(ks[..|ks| - 1], vs[..|vs| - 1])[ks[|ks| - 1] := vs[|vs| - 1]]
  }

  /** Assigning one more key and value after `ks` and `vs`. */
  lemma AssignSnoc<K, V>(ks: seq<K>, vs: seq<V>, k: K, v: V)
    requires |ks| == |vs|
    ensures Assign(ks + [k], vs + [v]) == Assign(ks, vs)[k := v]
  {
    assert (ks + [k])[..|ks|] == ks;
    assert (vs + [v])[..|vs|] == vs;
  }

  /** `d.get(k, default)`. */
  function Get<K(==), V>(d: map<K, V>, k: K, default: V): (r: V)
    ensures k in d ==> r == d[k]
    ensures k !in d ==> r == default
  {
    if k in d then d[k] else default
  }

  /** One more assignment extends the dict by one key. */
  lemma AssignStep<K, V>(ks: seq<K>, vs: seq<V>, i: nat, v: V)
    requires i < |ks| && |vs| == i
    ensures Assign(ks[..i + 1], vs + [v]) == Assign(ks[..i], vs)[ks[i] := v]
  {
    assert ks[..i + 1][..i] == ks[..i];
    assert (vs + [v])[..i] == vs;
  }

  /** The same step on prefixes of two sequences. */
  lemma AssignPrefixStep<K, V>(ks: seq<K>, vs: seq<V>, i: nat)
    requires i < |ks| && i < |vs|
    ensures Assign(ks[..i + 1], vs[..i + 1]) == Assign(ks[..i], vs[..i])[ks[i] := vs[i]]
  {
    assert ks[..i + 1][..i] == ks[..i];
    assert vs[..i + 1][..i] == vs[..i];
  }

  /** The keys of the dict are exactly the keys assigned. */
  lemma {:induction false} AssignKeys<K, V>(ks: seq<K>, vs: seq<V>)
    requires |ks| == |vs|
    ensures forall k :: k in Assign(ks, vs) <==> k in ks
    decreases |ks|
  {
    if ks != [] {
      var n := |ks| - 1;
      AssignKeys(ks[..n], vs[..n]);
      assert ks == ks[..n] + [ks[n]];
      forall k ensures k in ks <==> (k in ks[..n] || k == ks[n]) {
        if k in ks {
          var i :| 0 <= i < |ks| && ks[i] == k;
          if i < n { assert ks[..n][i] == k; }
        }
      }
    }
  }

  /** Last assignment wins: a key takes the value assigned at its last
      position. */
  lemma {:induction false} AssignLast<K, V>(ks: seq<K>, vs: seq<V>, i: int)
    requires |ks| == |vs| && 0 <= i < |ks|
    requires forall j :: i < j < |ks| ==> ks[j] != ks[i]
    ensures ks[i] in Assign(ks, vs) && Assign(ks, vs)[ks[i]] == vs[i]
    decreases |ks|
  {
    var n := |ks| - 1;
    if i < n {
      assert ks[n] != ks[i];
      AssignLast(ks[..n], vs[..n], i);
    }
  }

  /** Keys and last-wins values of the dict in one statement. */
  lemma AssignSpec<K, V>(ks: seq<K>, vs: seq<V>)
    requires |ks| == |vs|
    ensures forall k :: k in Assign(ks, vs) <==> k in ks
    ensures forall i :: 0 <= i < |ks| && (forall j :: i < j < |ks| ==> ks[j] != ks[i]) ==> Assign(ks, vs)[ks[i]] == vs[i]
  {
    AssignKeys(ks, vs);
    forall i | 0 <= i < |ks| && (forall j :: i < j < |ks| ==> ks[j] != ks[i]) ensures Assign(ks, vs)[ks[i]] == vs[i] {
      AssignLast(ks, vs, i);
    }
  }

  /** A key present in the dict was assigned. */
  lemma AssignedKey<K, V>(ks: seq<K>, vs: seq<V>, k: K)
    requires |ks| == |vs| && k in Assign(ks, vs)
    ensures k in ks
  {
    AssignKeys(ks, vs);
  }

  /** A key that is never assigned is absent. */
  lemma AssignAbsent<K, V>(ks: seq<K>, vs: seq<V>, k: K)
    requires |ks| == |vs| && k !in ks
    ensures k !in Assign(ks, vs)
  {
    AssignKeys(ks, vs);
  }

  /** With pairwise distinct keys every key gets its own value. */
  lemma AssignPositional<K, V>(ks: seq<K>, vs: seq<V>)
    requires |ks| == |vs|
    requires forall i, j :: 0 <= i < j < |ks| ==> ks[i] != ks[j]
    ensures |Assign(ks, vs).Keys| == |ks|
    ensures forall i :: 0 <= i < |ks| ==> ks[i] in Assign(ks, vs) && Assign(ks, vs)[ks[i]] == vs[i]
  {
    forall i | 0 <= i < |ks| ensures ks[i] in Assign(ks, vs) && Assign(ks, vs)[ks[i]] == vs[i] {
      AssignLast(ks, vs, i);
    }
    DistinctCard(ks);
    AssignKeys(ks, vs);
    var keys := set i | 0 <= i < |ks| :: ks[i];
    forall k | k in Assign(ks, vs) ensures k in keys {
      AssignedKey(ks, vs, k);
      var i :| 0 <= i < |ks| && ks[i] == k;
    }
    assert Assign(ks, vs).Keys == keys;
  }

  lemma {:induction false} DistinctCard<K>(ks: seq<K>)
    requires forall i, j :: 0 <= i < j < |ks| ==> ks[i] != ks[j]
    ensures |set i | 0 <= i < |ks| :: ks[i]| == |ks|
    decreases |ks|
  {
    if ks != [] {
      var n := |ks| - 1;
      DistinctCard(ks[..n]);
      var s := set i | 0 <= i < n :: ks[..n][i];
      assert (set i | 0 <= i < |ks| :: ks[i]) == s + {ks[n]};
      assert ks[n] !in s;
    }
  }

  /** `f` applied to each element in turn; the first element `f` rejects
      decides the error. */
  function Traverse<A, B>(f: A -> Result<B>, xs: seq<A>): (r: Result<seq<B>>)
    ensures r.Ok? ==> |r.value| == |xs|
    decreases |xs|
  {
    if xs == [] then Ok([])
    else
      var ys :- Traverse(f, xs[..|xs| - 1]);
      var y :- f(xs[|xs| - 1]);
      Ok(ys + [y])
  }

  /** The results exist exactly when `f` accepts every element, and are
      then `f`'s results in order. */
  lemma {:induction false} TraverseSpec<A, B>(f: A -> Result<B>, xs: seq<A>)
    ensures Traverse(f, xs).Ok? <==> forall i :: 0 <= i < |xs| ==> f(xs[i]).Ok?
    ensures Traverse(f, xs).Ok? ==> forall i :: 0 <= i < |xs| ==> Traverse(f, xs).value[i] == f(xs[i]).value
    ensures Traverse(f, xs).Err? ==> exists k :: 0 <= k < |xs| && f(xs[k]).Err? && Traverse(f, xs).exc == f(xs[k]).exc
    decreases |xs|
  {
    if xs != [] {
      var n := |xs| - 1;
      var init := xs[..n];
      TraverseSpec(f, init);
      assert forall i :: 0 <= i < n ==> init[i] == xs[i];
      if Traverse(f, init).Ok? && f(xs[n]).Ok? {
        assert Traverse(f, xs).value == Traverse(f, init).value + [f(xs[n]).value];
      } else if Traverse(f, init).Err? {
        var j :| 0 <= j < n && f(init[j]).Err? && Traverse(f, init).exc == f(init[j]).exc;
        assert f(xs[j]).Err? && Traverse(f, xs).exc == f(xs[j]).exc;
      } else {
        assert f(xs[n]).Err? && Traverse(f, xs).exc == f(xs[n]).exc;
      }
    }
  }

  /** The error is that of the first rejected element. */
  lemma {:induction false} TraverseFirstErr<A, B>(f: A -> Result<B>, xs: seq<A>, k: nat)
    requires k < |xs| && f(xs[k]).Err? && forall i :: 0 <= i < k ==> f(xs[i]).Ok?
    ensures Traverse(f, xs) == Err(f(xs[k]).exc)
    decreases |xs|
  {
    var n := |xs| - 1;
    var init := xs[..n];
    if k < n {
      assert init[k] == xs[k];
      assert forall i :: 0 <= i < k ==> init[i] == xs[i];
      TraverseFirstErr(f, init, k);
    } else {
      assert forall i :: 0 <= i < n ==> init[i] == xs[i];
      TraverseSpec(f, init);
    }
  }

  /** One more accepted element extends the results by one. */
  lemma TraverseStep<A, B>(f: A -> Result<B>, xs: seq<A>, i: nat, ys: seq<B>)
    requires i < |xs| && Traverse(f, xs[..i]) == Ok(ys) && f(xs[i]).Ok?
    ensures Traverse(f, xs[..i + 1]) == Ok(ys + [f(xs[i]).value])
  {
    assert xs[..i + 1][..i] == xs[..i];
  }

  /** A rejected element after accepted ones decides the error. */
  lemma TraverseStops<A, B>(f: A -> Result<B>, xs: seq<A>, i: nat)
    requires i < |xs| && Traverse(f, xs[..i]).Ok? && f(xs[i]).Err?
    ensures Traverse(f, xs) == Err(f(xs[i]).exc)
  {
    TraverseSpec(f, xs[..i]);
    assert forall j :: 0 <= j < i ==> xs[..i][j] == xs[j];
    TraverseFirstErr(f, xs, i);
  }

  /** The results `f` gives for the elements it accepts, in order: a loop
      whose `try` skips the elements that raise. */
  function Oks<A, B>(f: A -> Result<B>, xs: seq<A>): (r: seq<B>)
    ensures |r| <= |xs|
    decreases |xs|
  {
    if xs == [] then []
    else
      var n := |xs| - 1;
      Oks(f, xs[..n]) + (if f(xs[n]).Ok? then [f(xs[n]).value] else [])
  }

  /** Every kept result comes from an accepted element, every accepted
      element's result is kept, and when `f` accepts all elements nothing
      is dropped. */
  lemma {:induction false} OksSpec<A, B>(f: A -> Result<B>, xs: seq<A>)
    ensures forall y :: y in Oks(f, xs) <==> exists i :: 0 <= i < |xs| && f(xs[i]).Ok? && f(xs[i]).value == y
    ensures (forall i :: 0 <= i < |xs| ==> f(xs[i]).Ok?) ==> |Oks(f, xs)| == |xs|
    decreases |xs|
  {
    if xs != [] {
      var n := |xs| - 1;
      var init := xs[..n];
      OksSpec(f, init);
      assert forall i :: 0 <= i < n ==> init[i] == xs[i];
      forall y ensures y in Oks(f, xs) <==> exists i :: 0 <= i < |xs| && f(xs[i]).Ok? && f(xs[i]).value == y {
        if exists i :: 0 <= i < |xs| && f(xs[i]).Ok? && f(xs[i]).value == y {
          var i :| 0 <= i < |xs| && f(xs[i]).Ok? && f(xs[i]).value == y;
          if i < n { assert f(init[i]).Ok? && f(init[i]).value == y; }
        }
      }
    }
  }

  /** The loop over a concatenation keeps the results of the first part,
      then those of the second: results keep the order of their elements,
      and each accepted element gives exactly one. */
  lemma {:induction false} OksConcat<A, B>(f: A -> Result<B>, xs: seq<A>, ys: seq<A>)
    ensures Oks(f, xs + ys) == Oks(f, xs) + Oks(f, ys)
    decreases |ys|
  {
    if ys == [] {
      assert xs + ys == xs;
    } else {
      var n := |ys| - 1;
      var zs := xs + ys;
      assert zs[..|zs| - 1] == xs + ys[..n];
      assert zs[|zs| - 1] == ys[n];
      OksConcat(f, xs, ys[..n]);
      var last := if f(ys[n]).Ok? then [f(ys[n]).value] else [];
      assert Oks(f, xs) + Oks(f, ys[..n]) + last == Oks(f, xs) + (Oks(f, ys[..n]) + last);
    }
  }

  /** One element gives its result, or nothing when `f` rejects it. */
  lemma OksSingle<A, B>(f: A -> Result<B>, x: A)
    ensures Oks(f, [x]) == if f(x).Ok? then [f(x).value] else []
  {
    assert [x][..0] == [];
  }

  /** One more element: its result is kept when `f` accepts it. */
  lemma OksStep<A, B>(f: A -> Result<B>, xs: seq<A>, i: nat)
    requires i < |xs|
    ensures Oks(f, xs[..i + 1]) == Oks(f, xs[..i]) + (if f(xs[i]).Ok? then [f(xs[i]).value] else [])
  {
    assert xs[..i + 1][..i] == xs[..i];
  }

  /** Every accepted element's result is kept. */
  lemma OksMember<A, B>(f: A -> Result<B>, xs: seq<A>, i: nat)
    requires i < |xs| && f(xs[i]).Ok?
    ensures exists k :: 0 <= k < |Oks(f, xs)| && Oks(f, xs)[k] == f(xs[i]).value
  {
    OksSpec(f, xs);
    assert f(xs[i]).value in Oks(f, xs);
  }

  /** Every kept result comes from an accepted element. */
  lemma OksSource<A, B>(f: A -> Result<B>, xs: seq<A>, k: nat)
    requires k < |Oks(f, xs)|
    ensures exists i :: 0 <= i < |xs| && f(xs[i]).Ok? && f(xs[i]).value == Oks(f, xs)[k]
  {
    OksSpec(f, xs);
    assert Oks(f, xs)[k] in Oks(f, xs);
  }

  /** When `f` accepts every element, nothing is dropped and the results
      keep their order. */
  lemma {:induction false} OksAll<A, B>(f: A -> Result<B>, xs: seq<A>, ys: seq<B>)
    requires |xs| == |ys| && forall i :: 0 <= i < |xs| ==> f(xs[i]) == Ok(ys[i])
    ensures Oks(f, xs) == ys
  {
    if xs != [] {
      var n := |xs| - 1;
      OksAll(f, xs[..n], ys[..n]);
      assert ys == ys[..n] + [ys[n]];
    }
  }

  /** `OksAll` with the results read off `f`. */
  lemma OksAllOk<A, B>(f: A -> Result<B>, xs: seq<A>)
    requires forall i :: 0 <= i < |xs| ==> f(xs[i]).Ok?
    ensures |Oks(f, xs)| == |xs| && forall i :: 0 <= i < |xs| ==> Oks(f, xs)[i] == f(xs[i]).value
  {
    OksAll(f, xs, seq(|xs|, i requires 0 <= i < |xs| => f(xs[i]).value));
  }

  /** A rejected last element adds nothing. */
  lemma OksSnocErr<A, B>(f: A -> Result<B>, xs: seq<A>, x: A)
    requires f(x).Err?
    ensures Oks(f, xs + [x]) == Oks(f, xs)
  {
    assert (xs + [x])[..|xs|] == xs;
  }

  function Min(a: int, b: int): int { if a < b then a else b }

  /** `dict(zip(ks, vs))`: pairs up to the shorter of the two, later
      duplicates overwriting earlier ones. */
  function ZipDict<K(==), V>(ks: seq<K>, vs: seq<V>): map<K, V>
  {
    var n := Min(|ks|, |vs|);
    Assign(ks[..n], vs[..n])
  }

  /** What `dict(zip(ks, vs))` holds: a key is present iff it occurs among
      the first `min(|ks|, |vs|)` keys, and its value is the one at its last
      such position. */
  lemma ZipDictSpec<K, V>(ks: seq<K>, vs: seq<V>)
    ensures forall k :: k in ZipDict(ks, vs) <==> exists i :: 0 <= i < Min(|ks|, |vs|) && ks[i] == k
    ensures forall i :: 0 <= i < Min(|ks|, |vs|) && (forall j :: i < j < Min(|ks|, |vs|) ==> ks[j] != ks[i])
              ==> ZipDict(ks, vs)[ks[i]] == vs[i]
  {
    var n := Min(|ks|, |vs|);
    AssignKeys(ks[..n], vs[..n]);
    forall k ensures k in ZipDict(ks, vs) <==> exists i :: 0 <= i < n && ks[i] == k {
      if k in ks[..n] {
        var i :| 0 <= i < n && ks[..n][i] == k;
        assert ks[i] == k;
      }
      if exists i :: 0 <= i < n && ks[i] == k {
        var i :| 0 <= i < n && ks[i] == k;
        assert ks[..n][i] == k;
      }
    }
    forall i | 0 <= i < n && (forall j :: i < j < n ==> ks[j] != ks[i]) ensures ZipDict(ks, vs)[ks[i]] == vs[i] {
      AssignLast(ks[..n], vs[..n], i);
    }
  }

  /** Python's `a <= b` on strings: lexicographic by code point, a proper
      prefix coming first. */
  predicate StrLe(a: string, b: string) {
    if a == [] then true
    else if b == [] then false
    else if a[0] != b[0] then a[0] < b[0]
    else StrLe(a[1..], b[1..])
  }

  lemma {:induction false} StrLeRefl(a: string)
    ensures StrLe(a, a)
  {
    if a != [] { StrLeRefl(a[1..]); }
  }

  lemma {:induction false} StrLeTotal(a: string, b: string)
    ensures StrLe(a, b) || StrLe(b, a)
  {
    if a != [] && b != [] && a[0] == b[0] { StrLeTotal(a[1..], b[1..]); }
  }

  lemma {:induction false} StrLeTrans(a: string, b: string, c: string)
    requires StrLe(a, b) && StrLe(b, c)
    ensures StrLe(a, c)
  {
    if a != [] && b != [] && c != [] && a[0] == b[0] && b[0] == c[0] {
      StrLeTrans(a[1..], b[1..], c[1..]);
    }
  }

  lemma {:induction false} StrLeAntisym(a: string, b: string)
    requires StrLe(a, b) && StrLe(b, a)
    ensures a == b
  {
    if a != [] && b != [] {
      StrLeAntisym(a[1..], b[1..]);
      assert a == [a[0]] + a[1..];
      assert b == [b[0]] + b[1..];
    }
  }

  predicate Sorted(s: seq<string>) {
    forall i, j :: 0 <= i < j < |s| ==> StrLe(s[i], s[j])
  }

  /** Insert `x` into a sorted list, before the first element it does not
      exceed. */
  function Insert(x: string, s: seq<string>): (r: seq<string>)
    requires Sorted(s)
    ensures Sorted(r) && multiset(r) == multiset(s) + multiset{x}
  {
    if s == [] then [x]
    else if StrLe(x, s[0]) then
      forall j | 0 < j < |s| ensures StrLe(x, s[j]) { StrLeTrans(x, s[0], s[j]); }
      [x] + s
    else
      StrLeTotal(x, s[0]);
      assert s == [s[0]] + s[1..];
      var t := Insert(x, s[1..]);
      forall y | y in multiset(t) ensures StrLe(s[0], y) {
        if y != x {
          assert y in multiset(s[1..]);
          var k :| 0 <= k < |s[1..]| && s[1..][k] == y;
          assert s[k + 1] == y;
        }
      }
      forall i, j | 0 <= i < j < |[s[0]] + t| ensures StrLe(([s[0]] + t)[i], ([s[0]] + t)[j]) {
        if i == 0 { assert t[j - 1] in multiset(t); }
      }
      [s[0]] + t
  }

  /** Python's `sorted(s)` on a list of strings. */
  function Sort(s: seq<string>): (r: seq<string>)
    ensures Sorted(r) && multiset(r) == multiset(s)
  {
    if s == [] then []
    else
      assert s == [s[0]] + s[1..];
      Insert(s[0], Sort(s[1..]))
  }

  /** Two sorted rearrangements of the same strings start alike. */
  lemma SortedHeads(a: seq<string>, b: seq<string>)
    requires Sorted(a) && Sorted(b) && multiset(a) == multiset(b) && a != []
    ensures b != [] && a[0] == b[0]
  {
    assert a[0] in multiset(b);
    assert b[0] in multiset(a);
    var i :| 0 <= i < |b| && b[i] == a[0];
    var j :| 0 <= j < |a| && a[j] == b[0];
    assert StrLe(b[0], a[0]) by { if i > 0 { assert StrLe(b[0], b[i]); } else { StrLeRefl(a[0]); } }
    assert StrLe(a[0], b[0]) by { if j > 0 { assert StrLe(a[0], a[j]); } else { StrLeRefl(a[0]); } }
    StrLeAntisym(a[0], b[0]);
  }

  lemma SortedTail(a: seq<string>)
    requires Sorted(a) && a != []
    ensures Sorted(a[1..])
  {
    forall i, j | 0 <= i < j < |a[1..]| ensures StrLe(a[1..][i], a[1..][j]) {
      assert a[1..][i] == a[i + 1] && a[1..][j] == a[j + 1];
    }
  }

  lemma MultisetTail(a: seq<string>, b: seq<string>)
    requires a != [] && b != [] && a[0] == b[0] && multiset(a) == multiset(b)
    ensures multiset(a[1..]) == multiset(b[1..])
  {
    assert a == [a[0]] + a[1..];
    assert b == [b[0]] + b[1..];
    assert multiset(a) == multiset([a[0]]) + multiset(a[1..]) by { assert multiset(a) == multiset([a[0]] + a[1..]); }
    assert multiset(b) == multiset([a[0]]) + multiset(b[1..]) by { assert multiset(b) == multiset([b[0]] + b[1..]); }
    forall x ensures multiset(a[1..])[x] == multiset(b[1..])[x] {
      assert multiset(a)[x] == multiset([a[0]])[x] + multiset(a[1..])[x];
      assert multiset(b)[x] == multiset([a[0]])[x] + multiset(b[1..])[x];
    }
  }

  /** A sorted rearrangement is unique, so `Sort` is exactly what Python's
      `sorted` returns whatever sorting algorithm it uses. */
  lemma {:induction false} SortedUnique(a: seq<string>, b: seq<string>)
    requires Sorted(a) && Sorted(b) && multiset(a) == multiset(b)
    ensures a == b
    decreases |a|
  {
    if a == [] {
      assert |multiset(b)| == 0;
    } else {
      SortedHeads(a, b);
      MultisetTail(a, b);
      SortedTail(a);
      SortedTail(b);
      SortedUnique(a[1..], b[1..]);
      assert a == [a[0]] + a[1..];
      assert b == [b[0]] + b[1..];
    }
  }
}
