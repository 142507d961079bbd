/** Lists of ids as the client and the routes keep them: a duplicate-free list,
    removal of a set of ids, and `Array.from(new Set(ids))`. */
module IdLists {
  /** No id occurs twice. */
  predicate NoDup(ids: seq<string>)
  {
    forall i, j :: 0 <= i < j < |ids| ==> ids[i] != ids[j]
  }

  /** `ids.filter(id => !drop.has(id))`. */
  function Without(ids: seq<string>, drop: set<string>): (r: seq<string>)
    ensures |r| <= |ids|
    ensures forall x :: x in r <==> x in ids && x !in drop
    ensures NoDup(ids) ==> NoDup(r)
  {
    if ids == [] then []
    else
      var rest := Without(ids[1..], drop);
      if ids[0] in drop then rest
      else
        assert NoDup(ids) ==> ids[0] !in ids[1..];
        [ids[0]] + rest
  }

  /** `Array.from(new Set(ids))` after the ids in `seen`: the first occurrence
      of every id not yet seen, in order. */
  function DedupFrom(ids: seq<string>, seen: set<string>): (r: seq<string>)
    ensures NoDup(r)
    ensures forall x :: x in r <==> x in ids && x !in seen
  {
    if ids == [] then []
    else if ids[0] in seen then DedupFrom(ids[1..], seen)
    else [ids[0]] + DedupFrom(ids[1..], seen + {ids[0]})
  }

  /** `Array.from(new Set(ids))`. */
  function Dedup(ids: seq<string>): (r: seq<string>)
    ensures NoDup(r)
    ensures forall x :: x in r <==> x in ids
  {
    DedupFrom(ids, {})
  }

  /** Deduplicating a duplicate-free list followed by more ids keeps the list
      as it is and appends the new ids after it. */
  lemma {:induction false} DedupAppend(a: seq<string>, b: seq<string>, seen: set<string>)
    requires NoDup(a)
    requires forall x :: x in a ==> x !in seen
    ensures DedupFrom(a + b, seen) == a + DedupFrom(b, seen + ToSet(a))
    decreases |a|
  {
    if a == [] {
      EmptyAppend(a, b, seen);
    } else {
      var seen' := seen + {a[0]};
      NoDupTail(a, seen);
      DedupAppend(a[1..], b, seen');
      TailOfAppend(a, b);
      DedupFromStep(a + b, seen);
      ToSetCons(a, seen);
      Reassemble(a, DedupFrom(b, seen' + ToSet(a[1..])));
    }
  }

  lemma EmptyAppend(a: seq<string>, b: seq<string>, seen: set<string>)
    requires a == []
    ensures DedupFrom(a + b, seen) == a + DedupFrom(b, seen + ToSet(a))
  {
    assert a + b == b;
    assert ToSet(a) == {};
    assert seen + {} == seen;
  }

  /** One step of `DedupFrom` on an id not yet seen. */
  lemma DedupFromStep(ids: seq<string>, seen: set<string>)
    requires ids != [] && ids[0] !in seen
    ensures DedupFrom(ids, seen) == [ids[0]] + DedupFrom(ids[1..], seen + {ids[0]})
  {
  }

  lemma TailOfAppend(a: seq<string>, b: seq<string>)
    requires a != []
    ensures (a + b)[0] == a[0] && (a + b)[1..] == a[1..] + b
  {
  }

  /** The tail of a duplicate-free list unseen so far is duplicate-free and
      unseen after its head. */
  lemma NoDupTail(a: seq<string>, seen: set<string>)
    requires a != [] && NoDup(a)
    requires forall x :: x in a ==> x !in seen
    ensures NoDup(a[1..])
    ensures forall x :: x in a[1..] ==> x !in seen + {a[0]}
  {
    forall i, j | 0 <= i < j < |a[1..]| ensures a[1..][i] != a[1..][j] {
      assert a[1..][i] == a[i + 1] && a[1..][j] == a[j + 1];
    }
    forall x | x in a[1..] ensures x !in seen + {a[0]} {
      var k :| 0 <= k < |a[1..]| && a[1..][k] == x;
      assert a[k + 1] == x;
    }
  }

  lemma ToSetCons(a: seq<string>, seen: set<string>)
    requires a != []
    ensures (seen + {a[0]}) + ToSet(a[1..]) == seen + ToSet(a)
  {
    assert a == [a[0]] + a[1..];
    assert ToSet(a) == {a[0]} + ToSet(a[1..]);
  }

  lemma Reassemble(a: seq<string>, rest: seq<string>)
    requires a != []
    ensures [a[0]] + (a[1..] + rest) == a + rest
  {
    assert a == [a[0]] + a[1..];
  }

  function ToSet(ids: seq<string>): set<string>
  {
    set x | x in ids
  }
}
