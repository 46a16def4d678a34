/** The pure state updaters of the toast provider: the duration default and
    the arming rule of showToast, the append updater it hands to setToasts,
    and the filter-by-id updater of removeToast, with what they preserve. */
module ToastList {
  import opened ToastTypes

  /** The duration used when the caller gives none. */
  const DefaultDuration: Millis := 3000

  /** `toast.duration ?? 3000`: the caller's duration when there is one,
      whatever its sign, and the default otherwise. */
  function EffectiveDuration(d: Option<Millis>): (ms: Millis)
    ensures d.Some? ==> ms == d.value
    ensures d.None? ==> ms == DefaultDuration
  {
    d.GetOr(DefaultDuration)
  }

  /** Whether showToast arms a removal timer: exactly when the effective
      duration is positive, so an absent duration always arms one and a
      zero or negative one never does. */
  function SchedulesExpiry(d: Option<Millis>): (armed: bool)
    ensures armed <==> d.None? || d.value > 0
  {
    EffectiveDuration(d) > 0
  }

  /** The ids present in a list. */
  function Ids(s: seq<Toast>): (ids: set<ToastId>)
    ensures forall i :: 0 <= i < |s| ==> s[i].id in ids
  {
    set i | 0 <= i < |s| :: s[i].id
  }

  /** No two records of the list share an id. */
  predicate Distinct(s: seq<Toast>) {
    forall i, j :: 0 <= i < j < |s| ==> s[i].id != s[j].id
  }

  /** `prev => [...prev, { id, ...toast }]`: one new record at the end, every
      earlier record where and as it was, the new one carrying the given id
      and the caller's fields unchanged. */
  function Append(s: seq<Toast>, id: ToastId, o: ToastOptions): (r: seq<Toast>)
    ensures |r| == |s| + 1
    ensures r[..|s|] == s
    ensures r[|s|].id == id && r[|s|].Options() == o
  {
    s + [WithId(id, o)]
  }

  /** `prev => prev.filter(t => t.id !== id)`: the records whose id differs,
      and only those. */
  function RemoveById(s: seq<Toast>, id: ToastId): (r: seq<Toast>)
    ensures forall t :: t in r <==> t in s && t.id != id
    ensures |r| <= |s|
    decreases |s|
  {
    if s == [] then []
    else if s[0].id == id then RemoveById(s[1..], id)
    else [s[0]] + RemoveById(s[1..], id)
  }

  lemma IdsOfTail(s: seq<Toast>)
    requires s != []
    ensures Ids(s) == {s[0].id} + Ids(s[1..])
  {
    forall x | x in Ids(s) ensures x in {s[0].id} + Ids(s[1..]) {
      var i :| 0 <= i < |s| && s[i].id == x;
      if i > 0 { assert s[1..][i - 1].id == x; }
    }
  }

  /** After the filter no record carries the removed id, and every other id
      is still there. */
  lemma {:induction false} RemovedIdAbsent(s: seq<Toast>, id: ToastId)
    ensures Ids(RemoveById(s, id)) == Ids(s) - {id}
    decreases |s|
  {
    if s != [] {
      IdsOfTail(s);
      RemovedIdAbsent(s[1..], id);
      var rest := RemoveById(s[1..], id);
      if s[0].id != id {
        var r := [s[0]] + rest;
        assert r[1..] == rest;
        IdsOfTail(r);
      }
    }
  }

  /** Filtering out an id that is not there changes nothing. */
  lemma {:induction false} RemoveAbsent(s: seq<Toast>, id: ToastId)
    requires id !in Ids(s)
    ensures RemoveById(s, id) == s
    decreases |s|
  {
    if s != [] {
      IdsOfTail(s);
      RemoveAbsent(s[1..], id);
      assert [s[0]] + s[1..] == s;
    }
  }

  /** removeToast is idempotent: a second removal of the same id, such as a
      timer firing after the toast was closed by hand, changes nothing. */
  lemma RemoveIdempotent(s: seq<Toast>, id: ToastId)
    ensures RemoveById(RemoveById(s, id), id) == RemoveById(s, id)
  {
    RemovedIdAbsent(s, id);
    RemoveAbsent(RemoveById(s, id), id);
  }

  /** The filter works piece by piece: the records kept from a list are the
      records kept from its first part followed by those kept from the rest,
      so the survivors keep their relative order. */
  lemma {:induction false} RemoveDistributes(a: seq<Toast>, b: seq<Toast>, id: ToastId)
    ensures RemoveById(a + b, id) == RemoveById(a, id) + RemoveById(b, id)
    decreases |a|
  {
    if a == [] {
      assert a + b == b;
    } else {
      assert (a + b)[0] == a[0];
      assert (a + b)[1..] == a[1..] + b;
      RemoveDistributes(a[1..], b, id);
    }
  }

  /** Two removals give the same list in either order, so the interleaving of
      timers and close clicks does not matter to the final list. */
  lemma {:induction false} RemoveCommutes(s: seq<Toast>, x: ToastId, y: ToastId)
    ensures RemoveById(RemoveById(s, x), y) == RemoveById(RemoveById(s, y), x)
    decreases |s|
  {
    if s != [] {
      RemoveCommutes(s[1..], x, y);
    }
  }

  /** On a list of distinct ids, removing a present id drops exactly one
      record and removing an absent one drops none. */
  lemma {:induction false} RemoveLength(s: seq<Toast>, id: ToastId)
    requires Distinct(s)
    ensures |RemoveById(s, id)| == if id in Ids(s) then |s| - 1 else |s|
    decreases |s|
  {
    if s == [] {
    } else {
      IdsOfTail(s);
      assert Distinct(s[1..]);
      if s[0].id == id {
        forall i | 0 <= i < |s[1..]| ensures s[1..][i].id != id {
          assert s[1..][i] == s[i + 1];
        }
        RemoveAbsent(s[1..], id);
      } else {
        RemoveLength(s[1..], id);
      }
    }
  }

  /** Filtering keeps ids pairwise distinct. */
  lemma {:induction false} RemoveKeepsDistinct(s: seq<Toast>, id: ToastId)
    requires Distinct(s)
    ensures Distinct(RemoveById(s, id))
    decreases |s|
  {
    if s != [] {
      assert Distinct(s[1..]);
      RemoveKeepsDistinct(s[1..], id);
      if s[0].id != id {
        var rest := RemoveById(s[1..], id);
        forall j | 0 <= j < |rest| ensures rest[j].id != s[0].id {
          assert rest[j] in rest;
          var k :| 0 <= k < |s[1..]| && s[1..][k] == rest[j];
          assert s[k + 1] == rest[j];
        }
      }
    }
  }

  /** Appending a record under a fresh id keeps ids pairwise distinct and
      adds exactly that id. */
  lemma AppendKeepsDistinct(s: seq<Toast>, id: ToastId, o: ToastOptions)
    requires Distinct(s) && id !in Ids(s)
    ensures Distinct(Append(s, id, o))
    ensures Ids(Append(s, id, o)) == Ids(s) + {id}
  {
    var r := Append(s, id, o);
    forall i | 0 <= i < |s| ensures r[i] == s[i] {
      assert r[..|s|][i] == s[i];
    }
    forall x | x in Ids(r) ensures x in Ids(s) + {id} {
      var i :| 0 <= i < |r| && r[i].id == x;
    }
  }

  /** Round trip: showing a toast under a fresh id and then removing that id
      gives back the list as it was. */
  lemma RemoveUndoesAppend(s: seq<Toast>, id: ToastId, o: ToastOptions)
    requires id !in Ids(s)
    ensures RemoveById(Append(s, id, o), id) == s
  {
    RemoveDistributes(s, [WithId(id, o)], id);
    RemoveAbsent(s, id);
    assert RemoveById([WithId(id, o)], id) == [];
    assert s + [] == s;
  }

  /** Removing some other id does not disturb a record just appended: it
      stays last, after the survivors of the earlier list. */
  lemma RemoveOtherAfterAppend(s: seq<Toast>, id: ToastId, o: ToastOptions, other: ToastId)
    requires other != id
    ensures RemoveById(Append(s, id, o), other) == Append(RemoveById(s, other), id, o)
  {
    RemoveDistributes(s, [WithId(id, o)], other);
    assert RemoveById([WithId(id, o)], other) == [WithId(id, o)];
  }
}
