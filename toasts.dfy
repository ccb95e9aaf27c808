/**
 * The global list of toast notifications: newest first, at most five, each
 * removed by id. The timestamp-and-random id and the timer are parameters:
 * a push reports the delay after which the removal should fire.
 */
module Toasts {
  import opened Wrappers
  import opened Seqs

  datatype ToastKind = Success | Error | Info

  datatype Toast = Toast(id: string, message: string, kind: ToastKind)

  /** At most this many toasts are kept. */
  const MaxToasts := 5

  /** The delay, in milliseconds, used when the caller gives none. */
  const DefaultTimeout := 3200

  /** The list after a push: the new toast in front, cut down to the first five. */
  function Pushed(toasts: seq<Toast>, toast: Toast): (r: seq<Toast>)
    ensures 1 <= |r| <= MaxToasts && r[0] == toast
    ensures |r| == if |toasts| < MaxToasts then |toasts| + 1 else MaxToasts
    ensures forall i :: 1 <= i < |r| ==> r[i] == toasts[i - 1]
  {
    var all := [toast] + toasts;
    if |all| <= MaxToasts then all else all[..MaxToasts]
  }

  /** `toasts.filter(t => t.id !== id)`. */
  function WithoutToast(toasts: seq<Toast>, id: string): (r: seq<Toast>)
    ensures forall t :: t in r ==> t in toasts && t.id != id
    ensures forall t :: t in toasts && t.id != id ==> t in r
    ensures |r| <= |toasts|
  {
    Filter(toasts, (t: Toast) => t.id != id)
  }

  class ToastCenter {
    var toasts: seq<Toast>

    constructor()
      ensures toasts == []
    {
      toasts := [];
    }

    /**
     * Shows a message. A missing kind means `Info` and a missing timeout
     * means `DefaultTimeout`; a positive timeout asks for the toast's removal
     * after that delay, reported in `removeAfter`.
     */
    method PushToast(message: string, kind: Option<ToastKind>, timeout: Option<int>, id: string)
      returns (removeAfter: Option<int>)
      modifies this
      ensures var k := if kind.Some? then kind.value else Info;
        toasts == Pushed(old(toasts), Toast(id, message, k))
      ensures var delay := if timeout.Some? then timeout.value else DefaultTimeout;
        removeAfter == if delay > 0 then Some(delay) else None
    {
      var k := if kind.Some? then kind.value else Info;
      toasts := Pushed(toasts, Toast(id, message, k));
      var delay := if timeout.Some? then timeout.value else DefaultTimeout;
      removeAfter := if delay > 0 then Some(delay) else None;
    }

    /** Drops the toast with this id (the timer's callback, or a click on the toast). */
    method RemoveToast(id: string)
      modifies this
      ensures toasts == WithoutToast(old(toasts), id)
    {
      toasts := WithoutToast(toasts, id);
    }
  }

  /** A push onto a full list drops exactly the oldest toast. */
  lemma PushOntoFullDropsOldest(toasts: seq<Toast>, toast: Toast)
    requires |toasts| == MaxToasts
    ensures Pushed(toasts, toast) == [toast] + toasts[..MaxToasts - 1]
  {
  }

  /** Below the limit, a push drops nothing. */
  lemma PushBelowLimitKeepsAll(toasts: seq<Toast>, toast: Toast)
    requires |toasts| < MaxToasts
    ensures Pushed(toasts, toast) == [toast] + toasts
  {
  }

  /** Removing a toast just pushed with a fresh id, when nothing was dropped, restores the list. */
  lemma RemoveUndoesPush(toasts: seq<Toast>, toast: Toast)
    requires |toasts| < MaxToasts
    requires forall t :: t in toasts ==> t.id != toast.id
    ensures WithoutToast(Pushed(toasts, toast), toast.id) == toasts
  {
    var p := Pushed(toasts, toast);
    assert p == [toast] + toasts;
    assert p[1..] == toasts;
    FilterKeepsAll(toasts, (t: Toast) => t.id != toast.id);
  }

  /** Removal keeps the remaining toasts in their order. */
  lemma RemoveKeepsOrder(toasts: seq<Toast>, id: string)
    ensures SubsequenceOf(WithoutToast(toasts, id), toasts)
  {
    FilterIsSubsequence(toasts, (t: Toast) => t.id != id);
  }

  /** Removing an id no toast has changes nothing. */
  lemma RemoveUnknownIsNoOp(toasts: seq<Toast>, id: string)
    requires forall i :: 0 <= i < |toasts| ==> toasts[i].id != id
    ensures WithoutToast(toasts, id) == toasts
  {
    FilterKeepsAll(toasts, (t: Toast) => t.id != id);
  }
}
