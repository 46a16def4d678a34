/** The ToastProvider component: the `toasts` state cell, showToast (append
    plus an optional one-shot removal timer), removeToast (called from two
    places: the timer and the `onClose` prop given to the container, which a
    toast's close button calls) and the useToast lookup that refuses to work
    outside a provider.

    The host scheduler is modelled by a logical clock `now` and the set
    `pending` of armed timers; `Fire` is the scheduler running one of them. */
module ToastProvider {
  import opened ToastTypes
  import opened ToastList

  /** A removal timer armed by showToast: call removeToast(id) when the
      clock reads `deadline`. */
  datatype Expiry = Expiry(id: ToastId, deadline: int)

  /** The provider's state as one value: the list, the armed timers and the
      clock, with the bookkeeping that the invariant speaks about. */
  datatype Ledger = Ledger(
    toasts: seq<Toast>,
    pending: set<Expiry>,
    now: int,
    issued: set<ToastId>,   // every id drawn so far
    removed: set<ToastId>,  // every id some removal took out of the list
    shown: nat,             // the number of showToast calls
    due: map<ToastId, int>) // for each id whose timer was armed, its deadline

  /** The provider's invariant. */
  ghost predicate Consistent(l: Ledger) {
    ConsistentExcept(l, {})
  }

  /** The invariant, except that the listed toasts with an id in `gone` may
      have lost their timer: the moment inside a timer's run between taking
      the timer off the queue and removing its toast. */
  ghost predicate ConsistentExcept(l: Ledger, gone: set<ToastId>) {
    && Distinct(l.toasts)
    && l.removed <= l.issued
    && Ids(l.toasts) == l.issued - l.removed
    // length = number of showToast calls - number of distinct ids removed
    && |l.toasts| + |l.removed| == l.shown
    && l.due.Keys <= l.issued
    // each pending timer belongs to one armed id and is not yet overdue
    && (forall e :: e in l.pending ==> e.id in l.due && e.deadline == l.due[e.id] && l.now <= e.deadline)
    // a listed toast has a timer exactly when its effective duration is positive ...
    && (forall t :: t in l.toasts ==> (t.id in l.due <==> SchedulesExpiry(t.duration)))
    // ... and that timer has not run yet
    && (forall t :: t in l.toasts && t.id in l.due && t.id !in gone ==> Expiry(t.id, l.due[t.id]) in l.pending)
  }

  /** showToast(options) under the fresh id `id`: one record more, at the
      end, and a timer due `duration ?? 3000` ms from now exactly when that
      is positive; the clock and the removals are untouched. */
  function AfterShow(l: Ledger, id: ToastId, o: ToastOptions): (r: Ledger)
    ensures |r.toasts| == |l.toasts| + 1 && r.toasts[|l.toasts|] == WithId(id, o)
    ensures forall i :: 0 <= i < |l.toasts| ==> r.toasts[i] == l.toasts[i]
    ensures SchedulesExpiry(o.duration) ==>
              r.pending == l.pending + {Expiry(id, l.now + EffectiveDuration(o.duration))}
    ensures !SchedulesExpiry(o.duration) ==> r.pending == l.pending
    ensures r.now == l.now && r.removed == l.removed
    ensures r.shown == l.shown + 1 && id in r.issued
  {
    var ms := EffectiveDuration(o.duration);
    l.(toasts := Append(l.toasts, id, o),
       pending := if ms > 0 then l.pending + {Expiry(id, l.now + ms)} else l.pending,
       issued := l.issued + {id},
       shown := l.shown + 1,
       due := if ms > 0 then l.due[id := l.now + ms] else l.due)
  }

  /** removeToast(id): the list is filtered by id, so the id leaves it and
      the other records stay in their order; the id counts as removed when
      it was listed; the timers and the clock are untouched. */
  function AfterRemove(l: Ledger, id: ToastId): (r: Ledger)
    ensures r.toasts == RemoveById(l.toasts, id)
    ensures forall t :: t in r.toasts <==> t in l.toasts && t.id != id
    ensures id !in Ids(r.toasts)
    ensures id in Ids(l.toasts) ==> r.removed == l.removed + {id}
    ensures id !in Ids(l.toasts) ==> r.removed == l.removed
    ensures r.pending == l.pending && r.now == l.now
    ensures r.issued == l.issued && r.shown == l.shown && r.due == l.due
  {
    l.(toasts := RemoveById(l.toasts, id),
       removed := if id in Ids(l.toasts) then l.removed + {id} else l.removed)
  }

  /** The scheduler runs the timer `e`, which calls removeToast: the timer
      leaves the queue and its id leaves the list. */
  function AfterFire(l: Ledger, e: Expiry): (r: Ledger)
    ensures r.pending == l.pending - {e}
    ensures r.toasts == RemoveById(l.toasts, e.id)
    ensures forall t :: t in r.toasts <==> t in l.toasts && t.id != e.id
    ensures e.id !in Ids(r.toasts)
    ensures e.id in Ids(l.toasts) ==> r.removed == l.removed + {e.id}
    ensures e.id !in Ids(l.toasts) ==> r.removed == l.removed
    ensures r.now == l.now && r.issued == l.issued && r.shown == l.shown && r.due == l.due
  {
    AfterRemove(l.(pending := l.pending - {e}), e.id)
  }

  /** A listed toast with a positive effective duration has a timer still to
      run, due no earlier than now: since the clock cannot pass a pending
      deadline, the toast is gone once its deadline has come and gone. */
  lemma ListedNotOverdue(l: Ledger, t: Toast)
    requires Consistent(l) && t in l.toasts && SchedulesExpiry(t.duration)
    ensures t.id in l.due && Expiry(t.id, l.due[t.id]) in l.pending && l.now <= l.due[t.id]
  {
  }

  /** Once the clock is past an armed id's deadline, that id is not listed:
      the removal promised by showToast's timer has happened. */
  lemma PastDeadlineNotListed(l: Ledger, id: ToastId)
    requires Consistent(l) && id in l.due && l.due[id] < l.now
    ensures id !in Ids(l.toasts)
  {
  }

  /** showToast under an id never drawn before keeps the invariant. */
  lemma ShowKeepsConsistent(l: Ledger, id: ToastId, o: ToastOptions)
    requires Consistent(l) && id !in l.issued
    ensures Consistent(AfterShow(l, id, o))
  {
    var l' := AfterShow(l, id, o);
    AppendKeepsDistinct(l.toasts, id, o);
    assert l'.toasts == l.toasts + [WithId(id, o)];
    forall t | t in l'.toasts && t != WithId(id, o) ensures t in l.toasts && t.id != id {
    }
  }

  /** Removal restores the invariant even when the removed toast's timer is
      already gone. */
  lemma RemoveKeepsConsistent(l: Ledger, id: ToastId)
    requires ConsistentExcept(l, {id})
    ensures Consistent(AfterRemove(l, id))
  {
    RemovedIdAbsent(l.toasts, id);
    RemoveKeepsDistinct(l.toasts, id);
    RemoveLength(l.toasts, id);
  }

  /** The scheduler firing a due timer keeps the invariant. */
  lemma FireKeepsConsistent(l: Ledger, e: Expiry)
    requires Consistent(l) && e in l.pending
    ensures Consistent(AfterFire(l, e))
  {
    RemoveKeepsConsistent(l.(pending := l.pending - {e}), e.id);
  }

  /** What running a due timer does: its toast is gone, no timer for that id
      is left, a toast closed earlier by hand leaves the list untouched, and
      a toast that never had a timer stays. */
  lemma FireRemovesExpired(l: Ledger, e: Expiry)
    requires Consistent(l) && e in l.pending
    ensures e.id !in Ids(AfterFire(l, e).toasts)
    ensures forall x :: x in AfterFire(l, e).pending ==> x.id != e.id
    ensures e.id !in Ids(l.toasts) ==> AfterFire(l, e).toasts == l.toasts
    ensures forall t :: t in l.toasts && !SchedulesExpiry(t.duration) ==> t in AfterFire(l, e).toasts
  {
    RemovedIdAbsent(l.toasts, e.id);
    if e.id !in Ids(l.toasts) {
      RemoveAbsent(l.toasts, e.id);
    }
  }

  class Provider {
    /** The rendered list, in insertion order. */
    var toasts: seq<Toast>
    /** Timers armed and not yet run. Nothing ever cancels one. */
    var pending: set<Expiry>
    /** The scheduler's clock, in milliseconds. */
    var now: int

    ghost var issued: set<ToastId>
    ghost var removed: set<ToastId>
    ghost var shown: nat
    ghost var due: map<ToastId, int>

    ghost function State(): Ledger
      reads this
    {
      Ledger(toasts, pending, now, issued, removed, shown, due)
    }

    ghost predicate Valid()
      reads this
    {
      Consistent(State())
    }

    /** `useState<ToastType[]>([])`: the list starts empty, with no timer. */
    constructor ()
      ensures Valid()
      ensures toasts == [] && pending == {} && now == 0
      ensures issued == {} && removed == {} && shown == 0
    {
      toasts, pending, now := [], {}, 0;
      issued, removed, shown, due := {}, {}, 0, map[];
    }

    /** showToast(options) with `id` the fresh value drawn from the uuid
        generator: append `{ id, ...options }` and, when the effective
        duration is positive, arm a removal of `id` that many milliseconds
        from now. */
    method ShowToast(id: ToastId, o: ToastOptions)
      requires Valid()
      requires id !in issued
      modifies this
      ensures Valid()
      ensures State() == AfterShow(old(State()), id, o)
      ensures toasts == Append(old(toasts), id, o)
      ensures pending == if SchedulesExpiry(o.duration)
                         then old(pending) + {Expiry(id, now + EffectiveDuration(o.duration))}
                         else old(pending)
      ensures now == old(now)
    {
      ghost var next := AfterShow(State(), id, o);
      ShowKeepsConsistent(State(), id, o);
      toasts := Append(toasts, id, o);
      issued := issued + {id};
      shown := shown + 1;
      var ms := EffectiveDuration(o.duration);
      if ms > 0 {
        pending := pending + {Expiry(id, now + ms)};
        due := due[id := now + ms];
      }
      assert State() == next;
    }

    /** removeToast(id): drop the record with that id, whoever asks. Pending
        timers are left alone. */
    method RemoveToast(id: ToastId)
      requires Valid()
      modifies this
      ensures Valid()
      ensures State() == AfterRemove(old(State()), id)
      ensures toasts == RemoveById(old(toasts), id)
      ensures id !in Ids(toasts)
      ensures pending == old(pending) && now == old(now)
    {
      ghost var next := AfterRemove(State(), id);
      RemoveKeepsConsistent(State(), id);
      RemovedIdAbsent(toasts, id);
      removed := if id in Ids(toasts) then removed + {id} else removed;
      toasts := RemoveById(toasts, id);
      assert State() == next;
    }

    /** The scheduler lets time pass, but never beyond a timer that is due:
        the model treats timers as punctual. */
    method AdvanceTime(t: int)
      requires Valid()
      requires now <= t
      requires forall e :: e in pending ==> t <= e.deadline
      modifies this
      ensures Valid()
      ensures State() == old(State()).(now := t)
    {
      now := t;
    }

    /** The scheduler runs a timer that is due: `() => removeToast(id)`.
        The record leaves the list if it is still there; if it was already
        closed by hand the list is unchanged. */
    method Fire(e: Expiry)
      requires Valid()
      requires e in pending && e.deadline == now
      modifies this
      ensures Valid()
      ensures State() == AfterFire(old(State()), e)
      ensures pending == old(pending) - {e}
      ensures forall x :: x in pending ==> x.id != e.id
      ensures toasts == RemoveById(old(toasts), e.id)
      ensures e.id !in Ids(toasts)
      ensures e.id !in Ids(old(toasts)) ==> toasts == old(toasts)
      ensures forall t :: t in old(toasts) && !SchedulesExpiry(t.duration) ==> t in toasts
    {
      ghost var next := AfterFire(State(), e);
      FireKeepsConsistent(State(), e);
      FireRemovesExpired(State(), e);
      pending := pending - {e};
      removed := if e.id in Ids(toasts) then removed + {e.id} else removed;
      toasts := RemoveById(toasts, e.id);
      assert State() == next;
    }
  }

  /** The message useToast throws when no provider is above the caller. */
  const MissingProviderError: string := "useToast must be used within ToastProvider"

  /** useToast(): the provider found in the React context, or the error it
      throws when there is none. */
  function UseToast(context: Option<Provider>): (r: Result<Provider, string>)
    ensures r.Success? <==> context.Some?
    ensures r.Success? ==> r.value == context.value
    ensures r.Failure? ==> r.error == MissingProviderError
  {
    match context
    case None => Failure(MissingProviderError)
    case Some(p) => Success(p)
  }
}

/** Two runs of the provider as a caller sees them. */
module ToastScenarios {
  import opened ToastTypes
  import opened ToastList
  import opened ToastProvider

  /** A toast with the default duration is closed by hand; its timer still
      runs at 3000 ms and leaves the other, timer-less toast in place. */
  method CloseThenExpire(o: ToastOptions, sticky: ToastOptions) returns (final: seq<Toast>)
    requires o.duration.None?
    requires sticky.duration == Some(0)
    ensures final == [WithId("sticky", sticky)]
  {
    var p := new Provider();
    p.ShowToast("timed", o);
    p.ShowToast("sticky", sticky);
    assert p.pending == {Expiry("timed", 3000)};
    p.RemoveToast("timed");
    assert p.toasts == [WithId("sticky", sticky)];
    p.AdvanceTime(3000);
    p.Fire(Expiry("timed", 3000));
    final := p.toasts;
  }

  /** A toast whose duration is zero or negative arms no timer, so however
      much time passes it stays until removeToast is called. */
  method NeverExpires(o: ToastOptions, later: int) returns (final: seq<Toast>, armed: set<Expiry>)
    requires o.duration.Some? && o.duration.value <= 0
    requires later >= 0
    ensures final == [WithId("t", o)]
    ensures armed == {}
  {
    var p := new Provider();
    p.ShowToast("t", o);
    p.AdvanceTime(later);
    final, armed := p.toasts, p.pending;
  }
}
