/** Table helpers shared by the model: an optional value, row filtering (what a
    delete leaves behind), key uniqueness (what a unique column guarantees) and
    first-match lookup (what `get`/`filter().exists()` does on a table). */
module Common {

  datatype Option<+T> = None | Some(value: T)

  /** The rows of `s` that `keep` accepts, in table order. */
  function Filter<T(!new)>(s: seq<T>, keep: T -> bool): (r: seq<T>)
    ensures |r| <= |s|
  {
    if |s| == 0 then []
    else if keep(s[0]) then [s[0]] + Filter(s[1..], keep)
    else Filter(s[1..], keep)
  }

  /** The rows left by `Filter` are exactly the accepted rows of the table. */
  lemma {:induction false} FilterMembers<T(!new)>(s: seq<T>, keep: T -> bool)
    ensures forall x :: x in Filter(s, keep) <==> x in s && keep(x)
  {
    if |s| > 0 {
      FilterMembers(s[1..], keep);
      assert s == [s[0]] + s[1..];
    }
  }

  /** No two rows of `s` agree on `key`: a unique column or a unique constraint. */
  predicate UniqueBy<T, K(==)>(s: seq<T>, key: T -> K) {
    forall i, j :: 0 <= i < j < |s| ==> key(s[i]) != key(s[j])
  }

  /** The values that column `key` takes in table `s`. */
  function KeySet<T, K>(s: seq<T>, key: T -> K): set<K> {
    set i | 0 <= i < |s| :: key(s[i])
  }

  /** The position of the first row that `p` accepts, if any. */
  function FirstIndex<T>(s: seq<T>, p: T -> bool): (r: Option<nat>)
    ensures r.Some? ==> r.value < |s| && p(s[r.value])
    ensures r.Some? ==> forall j :: 0 <= j < r.value ==> !p(s[j])
    ensures r.None? <==> forall i :: 0 <= i < |s| ==> !p(s[i])
  {
    if |s| == 0 then None
    else if p(s[0]) then Some(0)
    else match FirstIndex(s[1..], p) {
      case None => None
      case Some(k) => Some(k + 1)
    }
  }

  /** Under a unique key, the first row carrying that key is the only one. */
  lemma FirstIndexUnique<T, K>(s: seq<T>, key: T -> K, k: K, p: T -> bool, i: nat)
    requires UniqueBy(s, key)
    requires forall x :: p(x) <==> key(x) == k
    requires i < |s| && p(s[i])
    ensures FirstIndex(s, p) == Some(i)
  {
    var r := FirstIndex(s, p);
    assert r.Some?;
  }

  /** Deleting rows never creates a duplicate key. */
  lemma {:induction false} FilterKeepsUnique<T(!new), K>(s: seq<T>, keep: T -> bool, key: T -> K)
    requires UniqueBy(s, key)
    ensures UniqueBy(Filter(s, keep), key)
  {
    if |s| > 0 {
      var rest := Filter(s[1..], keep);
      assert UniqueBy(s[1..], key) by {
        forall i, j | 0 <= i < j < |s[1..]| ensures key(s[1..][i]) != key(s[1..][j]) {
          assert s[1..][i] == s[i + 1] && s[1..][j] == s[j + 1];
        }
      }
      FilterKeepsUnique(s[1..], keep, key);
      FilterMembers(s[1..], keep);
      if keep(s[0]) {
        forall j | 0 <= j < |rest| ensures key(s[0]) != key(rest[j]) {
          assert rest[j] in s[1..];
          var k :| 0 <= k < |s[1..]| && s[1..][k] == rest[j];
          assert s[k + 1] == rest[j];
        }
        var r := [s[0]] + rest;
        assert Filter(s, keep) == r;
        forall i, j | 0 <= i < j < |r| ensures key(r[i]) != key(r[j]) {
          if i == 0 {
            assert r[j] == rest[j - 1];
          } else {
            assert r[i] == rest[i - 1] && r[j] == rest[j - 1];
          }
        }
      }
    }
  }

  /** A row that survives a delete still contributes its key. */
  lemma KeptKeyStays<T(!new), K>(s: seq<T>, keep: T -> bool, key: T -> K, x: T)
    requires x in s && keep(x)
    ensures key(x) in KeySet(Filter(s, keep), key)
  {
    var r := Filter(s, keep);
    FilterMembers(s, keep);
    assert x in r;
    var j :| 0 <= j < |r| && r[j] == x;
    assert key(r[j]) in KeySet(r, key);
  }

  /** Every row of `cs` refers, through `ref`, to a key present in `ids`. */
  predicate Refs<C>(cs: seq<C>, ref: C -> nat, ids: set<nat>) {
    forall i :: 0 <= i < |cs| ==> ref(cs[i]) in ids
  }

  /** Deleting child rows alone never breaks their references. */
  lemma FilterKeepsRefs<C(!new)>(cs: seq<C>, keep: C -> bool, ref: C -> nat, ids: set<nat>)
    requires Refs(cs, ref, ids)
    ensures Refs(Filter(cs, keep), ref, ids)
  {
    var r := Filter(cs, keep);
    FilterMembers(cs, keep);
    forall i | 0 <= i < |r| ensures ref(r[i]) in ids {
      assert r[i] in cs;
    }
  }

  /** Referential integrity survives a delete on both tables as long as every
      kept child row keeps the parent it refers to. */
  lemma KeptRefsResolve<P(!new), C(!new)>(parents: seq<P>, keepP: P -> bool, pid: P -> nat,
                                          children: seq<C>, keepC: C -> bool, ref: C -> nat)
    requires Refs(children, ref, KeySet(parents, pid))
    requires forall c, p :: c in children && keepC(c) && p in parents && pid(p) == ref(c) ==> keepP(p)
    ensures Refs(Filter(children, keepC), ref, KeySet(Filter(parents, keepP), pid))
  {
    var kc := Filter(children, keepC);
    FilterMembers(children, keepC);
    forall i | 0 <= i < |kc| ensures ref(kc[i]) in KeySet(Filter(parents, keepP), pid) {
      var c := kc[i];
      assert c in children && keepC(c);
      var j :| 0 <= j < |children| && children[j] == c;
      var k :| 0 <= k < |parents| && pid(parents[k]) == ref(c);
      assert parents[k] in parents;
      KeptKeyStays(parents, keepP, pid, parents[k]);
    }
  }

  /** Every key left after a delete belonged to a row that was kept. */
  lemma FilteredKeyCameFromKept<T(!new), K>(s: seq<T>, keep: T -> bool, key: T -> K, x: K)
    requires x in KeySet(Filter(s, keep), key)
    ensures exists i :: 0 <= i < |s| && keep(s[i]) && key(s[i]) == x
  {
    var r := Filter(s, keep);
    FilterMembers(s, keep);
    var j :| 0 <= j < |r| && key(r[j]) == x;
    assert r[j] in s;
    var i :| 0 <= i < |s| && s[i] == r[j];
    assert keep(s[i]);
  }

  /** Appending a row whose key is new keeps the key unique. */
  lemma AppendKeepsUnique<T, K>(s: seq<T>, x: T, key: T -> K)
    requires UniqueBy(s, key)
    requires forall i :: 0 <= i < |s| ==> key(s[i]) != key(x)
    ensures UniqueBy(s + [x], key)
  {
    var r := s + [x];
    forall i, j | 0 <= i < j < |r| ensures key(r[i]) != key(r[j]) {
      assert r[i] == s[i];
      if j < |s| { assert r[j] == s[j]; }
    }
  }

  /** Rewriting one row keeps a key unique when the new key is not used elsewhere. */
  lemma ReplaceKeepsUnique<T, K>(s: seq<T>, k: nat, x: T, key: T -> K)
    requires UniqueBy(s, key) && k < |s|
    requires forall i :: 0 <= i < |s| && i != k ==> key(s[i]) != key(x)
    ensures UniqueBy(s[k := x], key)
  {
  }

  /** Appending a row adds exactly its key to the column. */
  lemma KeySetAppend<T, K>(s: seq<T>, x: T, key: T -> K)
    ensures KeySet(s + [x], key) == KeySet(s, key) + {key(x)}
  {
    var r := s + [x];
    forall y | y in KeySet(s, key) ensures y in KeySet(r, key) {
      var i :| 0 <= i < |s| && key(s[i]) == y;
      assert r[i] == s[i];
    }
    assert key(r[|s|]) in KeySet(r, key);
  }

  /** Rewriting a row without touching its key leaves the column as it was. */
  lemma KeySetReplace<T, K>(s: seq<T>, k: nat, x: T, key: T -> K)
    requires k < |s| && key(x) == key(s[k])
    ensures KeySet(s[k := x], key) == KeySet(s, key)
  {
    var r := s[k := x];
    forall y | y in KeySet(s, key) ensures y in KeySet(r, key) {
      var i :| 0 <= i < |s| && key(s[i]) == y;
      assert key(r[i]) == y;
    }
  }
}
