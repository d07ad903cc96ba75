/** The notification queue kept by the `useToast` hook. The hook's timer that
    dismisses a toast after its duration is not modelled as time: it is the
    same removal as `removeToast`, and `ShowThenDismiss` states what it undoes.
    The id of a new toast comes from the clock and a random source, so it is a
    parameter here. */
module Toasts {
  import opened Options
  import opened Seqs

  datatype ToastType = Success | Error | Info | Warning

  datatype Toast = Toast(id: string, message: string, kind: ToastType, duration: int)

  /** The duration `showToast` uses when none is given, in milliseconds. */
  const DefaultDuration := 3000

  /** The toast `showToast` builds: an absent type means `info`, an absent
      duration means 3000 ms. */
  function NewToast(id: string, message: string, kind: Option<ToastType>, duration: Option<int>): (r: Toast)
    ensures r.id == id && r.message == message
    ensures kind.Some? ==> r.kind == kind.value
    ensures kind.None? ==> r.kind == Info
    ensures duration.Some? ==> r.duration == duration.value
    ensures duration.None? ==> r.duration == DefaultDuration
  {
    Toast(id, message, kind.GetOr(Info), duration.GetOr(DefaultDuration))
  }

  /** The test passed to `filter` when a toast is removed. */
  function OtherId(id: string): Toast -> bool {
    (t: Toast) => t.id != id
  }

  /** The queue after a toast is shown: one more toast, at the end. */
  function Shown(prev: seq<Toast>, t: Toast): (r: seq<Toast>)
    ensures |r| == |prev| + 1 && r[|prev|] == t
    ensures forall k :: 0 <= k < |prev| ==> r[k] == prev[k]
  {
    prev + [t]
  }

  /** The queue after removing every toast with the id. */
  function Dismissed(prev: seq<Toast>, id: string): (r: seq<Toast>)
    ensures forall x :: x in r <==> x in prev && x.id != id
    ensures forall x :: multiset(r)[x] == if x.id != id then multiset(prev)[x] else 0
    ensures IsSubsequence(r, prev)
  {
    FilterIsSubsequence(prev, OtherId(id));
    FilterMultiset(prev, OtherId(id));
    Filter(prev, OtherId(id))
  }

  /** The hook's state. */
  class ToastQueue {
    var toasts: seq<Toast>

    constructor()
      ensures toasts == []
    {
      toasts := [];
    }

    /** `showToast`: returns the id of the toast it appended. */
    method ShowToast(message: string, kind: Option<ToastType>, duration: Option<int>, id: string)
      returns (newId: string)
      modifies this
      ensures toasts == Shown(old(toasts), NewToast(id, message, kind, duration))
      ensures newId == id == toasts[|toasts| - 1].id
    {
      toasts := Shown(toasts, NewToast(id, message, kind, duration));
      newId := id;
    }

    /** `success`, `error`, `info` and `warning`: `showToast` with their own type. */
    method Notify(kind: ToastType, message: string, duration: Option<int>, id: string)
      returns (newId: string)
      modifies this
      ensures toasts == old(toasts) + [Toast(id, message, kind, duration.GetOr(DefaultDuration))]
      ensures newId == id
    {
      newId := ShowToast(message, Some(kind), duration, id);
    }

    /** `removeToast`, and the timer that fires after a toast's duration. */
    method RemoveToast(id: string)
      modifies this
      ensures toasts == Dismissed(old(toasts), id)
    {
      toasts := Dismissed(toasts, id);
    }

    /** `clearAllToasts`. */
    method ClearAllToasts()
      modifies this
      ensures toasts == []
    {
      toasts := [];
    }
  }

  /** Removing an id no toast carries changes nothing. */
  lemma DismissUnknown(prev: seq<Toast>, id: string)
    requires forall k :: 0 <= k < |prev| ==> prev[k].id != id
    ensures Dismissed(prev, id) == prev
  {
    FilterUnchangedIff(prev, OtherId(id));
  }

  /** Dismissing a toast whose id was fresh when it was shown gives back the
      queue from before it was shown. */
  lemma ShowThenDismiss(prev: seq<Toast>, t: Toast)
    requires forall k :: 0 <= k < |prev| ==> prev[k].id != t.id
    ensures Dismissed(Shown(prev, t), t.id) == prev
  {
    FilterConcat(prev, [t], OtherId(t.id));
    FilterUnchangedIff(prev, OtherId(t.id));
    assert Filter([t], OtherId(t.id)) == [];
  }

  /** Dismissal of one id commutes with showing a toast with another id. */
  lemma DismissOtherAfterShow(prev: seq<Toast>, t: Toast, id: string)
    requires t.id != id
    ensures Dismissed(Shown(prev, t), id) == Shown(Dismissed(prev, id), t)
  {
    FilterConcat(prev, [t], OtherId(id));
    assert Filter([t], OtherId(id)) == [t];
  }
}
