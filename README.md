# sw-toast: the toast provider, modelled in Dafny

sw-toast is a small React notification library. Its only stateful logic is
`ToastProvider` (src/context/ToastProvider.tsx). The provider keeps a list
of toast records. `showToast(options)` draws a uuid and appends
`{ id, ...options }` to the end of the list. When the effective duration
(`duration ?? 3000`) is positive, it also arms a one-shot timer that later
calls `removeToast(id)`. `removeToast(id)` filters out the record with that
id. It is called from two places: the timer, and the `onClose` prop that
the provider hands to `ToastContainer`, which a toast's close button calls.
The context value is `{ showToast }` only. `useToast()` returns that value and throws
when no provider is above the caller.

The project has three files:

- `toast_types.dfy` (module `ToastTypes`) models the record type of
  src/types/type.ts. `ToastOptions` is what a caller passes, and `Toast` is
  the stored record with its id. Every field except the id stays optional.
  The provider applies no defaults; `Toast.tsx` fills in `type` and
  `animation` only when it renders.
- `toast_list.dfy` (module `ToastList`) holds the pure state updaters. They
  are the duration default, the arming rule, the append updater and the
  filter updater. Lemmas cover what removal and appending preserve:
  idempotence, order, commutation, length, distinct ids, and the show/remove
  round trip.
- `toast_provider.dfy` has two modules. `ToastProvider` describes the
  provider's state as a value, `Ledger`. The state is the list, the pending
  timers and a logical clock, plus bookkeeping: the ids drawn so far, the
  ids removed, the number of `showToast` calls, and each armed id's
  deadline. `Consistent` is the invariant over that value. `AfterShow`,
  `AfterRemove` and `AfterFire` are the transitions, with lemmas that each
  keeps the invariant. The class `Provider` holds the same state in fields.
  Its methods change the fields in place, and each method's contract ties
  the new state to the matching transition. The module also holds
  `UseToast`. The second module, `ToastScenarios`, holds two client runs.

The host scheduler (`setTimeout`) is modelled as a clock plus pending
expiries. `AdvanceTime` lets time pass up to the next due timer, and `Fire`
runs a due timer. The uuid generator becomes an `id` argument, which must
differ from every id handed out before. The invariant `Consistent` says:

- ids in the list are pairwise distinct;
- list length equals the number of `showToast` calls minus the number of
  distinct ids a removal actually took out;
- a listed toast has a pending timer exactly when its effective duration is
  positive;
- no pending timer is overdue. Since the clock cannot pass a pending
  deadline, an armed toast is gone once its deadline has been reached and
  its timer run.

### What the provider does not do

Toast managers often group toasts by screen position, pause a countdown on
hover, cancel a timer before removing its toast, and cancel every timer on
teardown. This provider does none of these, and the model follows the code:

- the list is one flat sequence;
- a manual close leaves its timer pending, and the timer later runs
  `removeToast` on an id that is already gone, which changes nothing
  (`ToastProvider.FireRemovesExpired`, `ToastScenarios.CloseThenExpire`);
- the record's `onClose` is stored but never called.

## Model

| member | source | states |
|---|---|---|
| ToastTypes.WithId | src/context/ToastProvider.tsx:22 | the record `{ id, ...toast }` carries the fresh id and exactly the caller's fields |
| ToastList.EffectiveDuration | src/context/ToastProvider.tsx:24-25 | the duration is the caller's value whenever one is given, whatever its sign, and 3000 when it is absent |
| ToastList.SchedulesExpiry | src/context/ToastProvider.tsx:24-26 | a timer is armed if and only if the duration is absent or positive |
| ToastList.Append | src/context/ToastProvider.tsx:22 | one more record, at the end; every earlier record keeps its position and contents; the new one has the given id and the caller's fields |
| ToastList.RemoveById | src/context/ToastProvider.tsx:30 | a record survives the filter if and only if it was in the list and its id differs from the removed one; the list never grows |
| ToastList.RemovedIdAbsent | src/context/ToastProvider.tsx:30 | after removal no record carries the id, and the remaining ids are exactly the old ones minus it |
| ToastList.RemoveAbsent | src/context/ToastProvider.tsx:29-31 | removing an id that is not listed leaves the list unchanged |
| ToastList.RemoveIdempotent | src/context/ToastProvider.tsx:29-31 | removing the same id twice equals removing it once |
| ToastList.RemoveDistributes | src/context/ToastProvider.tsx:30 | filtering a concatenation gives the survivors of each part, in order, so relative order is preserved |
| ToastList.RemoveCommutes | src/context/ToastProvider.tsx:29-31 | two removals give the same list in either order (timer against close click) |
| ToastList.RemoveLength | src/context/ToastProvider.tsx:30 | with distinct ids, removing a listed id shortens the list by exactly one, and removing an absent id by none |
| ToastList.RemoveKeepsDistinct | src/context/ToastProvider.tsx:30 | removal keeps ids pairwise distinct |
| ToastList.AppendKeepsDistinct | src/context/ToastProvider.tsx:21-22 | appending under a fresh id keeps ids pairwise distinct and adds exactly that id |
| ToastList.RemoveUndoesAppend | src/context/ToastProvider.tsx:20-31 | showing under a fresh id and then removing that id restores the previous list |
| ToastList.RemoveOtherAfterAppend | src/context/ToastProvider.tsx:22-30 | removing another id leaves a just-appended record last, after the survivors |
| ToastProvider.AfterShow | src/context/ToastProvider.tsx:20-27 | showToast as a state transition: one record more, `{ id, ...options }`, at the end with earlier records unchanged; a timer due now plus `duration ?? 3000` is armed when that is positive and none otherwise; the clock does not move |
| ToastProvider.AfterRemove | src/context/ToastProvider.tsx:29-31 | removeToast as a state transition: the list becomes the filter by id, so a record is kept if and only if it was listed with a different id, survivors keep their order (`RemoveDistributes`) and the id is no longer listed; `removed` gains the id exactly when it was listed; pending timers, clock, `issued`, `shown` and `due` are untouched |
| ToastProvider.AfterFire | src/context/ToastProvider.tsx:25 | a timer run as a state transition: the timer leaves the queue and the list becomes the filter by its id, so a record is kept if and only if it was listed with another id, in the same order; `removed` gains the id exactly when it was listed; clock, `issued`, `shown` and `due` are untouched |
| ToastProvider.PastDeadlineNotListed | src/context/ToastProvider.tsx:24-25 | under the invariant, an armed id whose deadline is already behind the clock is no longer listed |
| ToastProvider.ListedNotOverdue | src/context/ToastProvider.tsx:24-25 | under the invariant, a listed toast with a positive effective duration still has its timer pending, due no earlier than the current time |
| ToastProvider.ShowKeepsConsistent | src/context/ToastProvider.tsx:20-27 | showToast under a never-drawn id keeps the invariant: distinct ids, the length accounting, and a timer exactly for the armed toasts |
| ToastProvider.RemoveKeepsConsistent | src/context/ToastProvider.tsx:29-31 | removeToast restores the invariant, even when the removed toast's own timer is already gone |
| ToastProvider.FireKeepsConsistent | src/context/ToastProvider.tsx:25 | running any pending timer keeps the invariant |
| ToastProvider.FireRemovesExpired | src/context/ToastProvider.tsx:25 | after a timer runs, its id is no longer listed and no timer for it is left; if the toast was already closed, the list is unchanged; a toast that never had a timer stays |
| ToastProvider.Provider.constructor | src/context/ToastProvider.tsx:18 | the list starts empty, with no pending timer |
| ToastProvider.Provider.ShowToast | src/context/ToastProvider.tsx:20-27 | the list becomes the append of `{ id, ...options }`; one timer, due at now plus the effective duration, is added exactly when that duration is positive; the invariant is kept |
| ToastProvider.Provider.RemoveToast | src/context/ToastProvider.tsx:29-31 | the list becomes the filter by id, no record with that id remains, and pending timers are untouched; the invariant is kept |
| ToastProvider.Provider.AdvanceTime | src/context/ToastProvider.tsx:25 | the clock moves forward but never past a pending deadline; nothing else changes |
| ToastProvider.Provider.Fire | src/context/ToastProvider.tsx:25 | a due timer is taken off the queue and runs removeToast on its id; the rest is as in FireRemovesExpired; the invariant is kept |
| ToastProvider.UseToast | src/context/ToastProvider.tsx:43-47 | without a provider the result is the error "useToast must be used within ToastProvider", never a silent value; with one it is the value found in the context |
| ToastScenarios.CloseThenExpire | src/context/ToastProvider.tsx:20-31 | a toast closed by hand has its timer fire at 3000 ms with no effect on the remaining toast, which has duration 0 |
| ToastScenarios.NeverExpires | src/context/ToastProvider.tsx:24-26 | a toast with duration zero or negative arms no timer and stays listed however much time passes |

## Left out

- Rendering is not modelled: the portal, the `typeof document` check, `ToastContainer` and the `Toast` component (src/context/ToastProvider.tsx:33-40, src/components/). They only present the list. The close button's only effect is the `removeToast` call, which is modelled.
- Styles, animations, the placeholder component in src/Toast.tsx, the build configuration and the demo and story files hold no provider logic.
- The uuid generator is a foreign call. Its output is an argument of `ShowToast`, required to differ from every id issued before.
- `setTimeout` is a foreign call. It is a logical clock with a set of pending expiries.
- ToastProvider.Provider.AdvanceTime: the scheduler is taken as punctual, so time never passes a due timer. A host that runs a timer late keeps the toast listed past its deadline, and the model does not capture that.
- ToastProvider.Provider.ShowToast: durations are unbounded integers. JavaScript numbers may also be fractional or NaN (NaN arms no timer, because `NaN > 0` is false). Browsers also run a delay above 2147483647 ms at once. None of this is modelled.
- React's batching of state updates is not modelled. Each functional `setToasts` updater is applied at once, in call order. That order is also the order React applies queued functional updates in.
- The `onClose` callback is kept as an opaque handle, because the provider never calls it.
- TypeScript's structural typing lets a non-literal argument carry extra fields. An extra `id` would overwrite the uuid in the spread `{ id, ...toast }`. Other extras, such as `pauseOnHover`, `progressBar` and `progressColor` passed in src/Toast.stories.tsx, are copied into the record and never read. `ToastOptions` holds exactly the declared fields, so both cases are outside the model.
- ToastProvider.Provider.RemoveToast accepts any id from any caller. In the code only the timer and the `onClose` prop given to `ToastContainer` call it, with the id of a toast that was shown; the model allows more callers than that, and every invariant lemma holds for all ids.
- ToastProvider.UseToast returns the provider itself. The code returns the context value `{ showToast }`, so a caller reaches only `showToast`; the model does not restrict the caller to that method.
- The model leaves out position groups, pause/resume, progress bars, timer cancellation and teardown, because the code implements none of them.
