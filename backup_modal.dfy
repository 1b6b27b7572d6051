/** The backup-code dialog of one account: which code positions are marked
    used, how a click toggles one, what is sent to the store, and how the
    marks are loaded from the store when the dialog opens.

    A JavaScript `Set<number>` keeps its elements in insertion order and
    `Array.from` lists them in that order, so the set is modelled by its
    elements in insertion order, without duplicates. */
module BackupModal {
  import opened Wrappers

  /** No index occurs twice. */
  predicate NoDuplicates(s: seq<int>) {
    forall p, q :: 0 <= p < q < |s| ==> s[p] != s[q]
  }

  /** `set.add(x)`: appended unless already present. */
  function Add(s: seq<int>, x: int): (r: seq<int>)
    ensures NoDuplicates(s) ==> NoDuplicates(r)
    ensures forall y :: y in r <==> y in s || y == x
  {
    if x in s then s else s + [x]
  }

  /** `set.delete(x)`: removed; the others keep their order. */
  function Delete(s: seq<int>, x: int): (r: seq<int>)
    ensures NoDuplicates(s) ==> NoDuplicates(r)
    ensures forall y :: y in r <==> y in s && y != x
    ensures |r| <= |s|
  {
    if |s| == 0 then []
    else if s[0] == x then Delete(s[1..], x)
    else
      var rest := Delete(s[1..], x);
      assert NoDuplicates(s) ==> s[0] !in s[1..] && NoDuplicates(s[1..]);
      assert NoDuplicates(s) ==> s[0] !in rest;
      [s[0]] + rest
  }

  /** The set after `toggleUsed(index)`: the index added when absent,
      deleted when present. */
  function Toggle(s: seq<int>, index: int): (r: seq<int>)
    ensures NoDuplicates(s) ==> NoDuplicates(r)
    ensures index in r <==> index !in s
    ensures forall j :: j != index ==> (j in r <==> j in s)
  {
    if index in s then Delete(s, index) else Add(s, index)
  }

  /** `new Set(xs)`: the first occurrence of each element, in order. */
  function FromArray(xs: seq<int>): (r: seq<int>)
    ensures NoDuplicates(r)
    ensures forall y :: y in r <==> y in xs
  {
    if |xs| == 0 then [] else Add(FromArray(xs[..|xs| - 1]), xs[|xs| - 1])
  }

  lemma {:induction false} DeleteLast(s: seq<int>, x: int)
    requires x !in s
    ensures Delete(s + [x], x) == s
  {
    if |s| == 0 {
      assert Delete([x], x) == Delete([], x);
    } else {
      assert (s + [x])[1..] == s[1..] + [x];
      DeleteLast(s[1..], x);
      assert [s[0]] + s[1..] == s;
    }
  }

  /** Marking an unused code and unmarking it again restores the set
      exactly, order included. */
  lemma ToggleTwiceUnused(s: seq<int>, index: int)
    requires index !in s
    ensures Toggle(Toggle(s, index), index) == s
  {
    DeleteLast(s, index);
  }

  /** Unmarking a used code and marking it again restores the same
      elements; the index moves to the end of the insertion order. */
  lemma ToggleTwiceUsed(s: seq<int>, index: int)
    requires NoDuplicates(s) && index in s
    ensures Toggle(Toggle(s, index), index) == Delete(s, index) + [index]
    ensures forall j :: j in Toggle(Toggle(s, index), index) <==> j in s
  {
  }

  /** A list without duplicates, such as one this dialog saved, comes back
      from `new Set(...)` unchanged. */
  lemma {:induction false} FromArrayOfSet(xs: seq<int>)
    requires NoDuplicates(xs)
    ensures FromArray(xs) == xs
  {
    if |xs| > 0 {
      var init := xs[..|xs| - 1];
      FromArrayOfSet(init);
      assert xs[|xs| - 1] !in init;
      assert init + [xs[|xs| - 1]] == xs;
    }
  }

  /** The used marks of the `count` codes shown, position by position:
      `usedCodes.has(index)`. */
  function UsedFlags(count: nat, s: seq<int>): (flags: seq<bool>)
    ensures |flags| == count
    ensures forall k :: 0 <= k < count ==> flags[k] == (k in s)
  {
    seq(count, k => k in s)
  }

  /** A toggle flips the mark of exactly the clicked position; codes equal
      as strings at other positions keep their marks. */
  lemma ToggleFlipsOneFlag(count: nat, s: seq<int>, index: nat)
    requires NoDuplicates(s) && index < count
    ensures UsedFlags(count, Toggle(s, index)) == UsedFlags(count, s)[index := !UsedFlags(count, s)[index]]
  {
  }

  /** The body of the save request. */
  datatype SaveRequest = SaveRequest(email: string, usedIndexes: seq<int>)

  /** How the save request settled. */
  datatype SaveOutcome = Saved | Failed

  class Modal {
    const email: string
    const backupCodes: seq<string>
    var isOpen: bool
    /** `usedCodes`, in insertion order. */
    var usedCodes: seq<int>
    var isSaving: bool
    /** The load requests sent and not yet settled. */
    var loadsInFlight: nat

    ghost predicate Valid()
      reads this
    {
      NoDuplicates(usedCodes)
    }

    /** The first render: nothing marked, nothing being saved. */
    constructor (email: string, backupCodes: seq<string>, isOpen: bool)
      ensures Valid()
      ensures this.email == email && this.backupCodes == backupCodes && this.isOpen == isOpen
      ensures usedCodes == [] && !isSaving && loadsInFlight == 0
    {
      this.email := email;
      this.backupCodes := backupCodes;
      this.isOpen := isOpen;
      usedCodes := [];
      isSaving := false;
      loadsInFlight := 0;
    }

    /** The marks of the codes shown, one per code: `usedCodes.has(index)`
        for every position of `backupCodes`. */
    function Flags(): (flags: seq<bool>)
      reads this
      ensures |flags| == |backupCodes|
      ensures forall k :: 0 <= k < |backupCodes| ==> flags[k] == (k in usedCodes)
    {
      UsedFlags(|backupCodes|, usedCodes)
    }

    /** The parent opens or closes the dialog. */
    method SetOpen(open: bool)
      modifies this`isOpen
      ensures isOpen == open
    {
      isOpen := open;
    }

    /** The load effect, run when `isOpen` or `email` changes: only an
        open dialog sends the request. Nothing cancels it later. */
    method StartLoad()
      modifies this`loadsInFlight
      ensures loadsInFlight == old(loadsInFlight) + (if isOpen then 1 else 0)
    {
      if isOpen {
        loadsInFlight := loadsInFlight + 1;
      }
    }

    /** A load request settles. `response` is the map the store returned,
        or `None` when the request or its JSON failed. An entry for this
        address replaces the marks, whether or not the dialog is still
        open; anything else leaves them as they are. */
    method LoadUsedCodes(response: Option<map<string, seq<int>>>)
      requires Valid() && loadsInFlight > 0
      modifies this`usedCodes, this`loadsInFlight
      ensures Valid()
      ensures loadsInFlight == old(loadsInFlight) - 1
      ensures response.Some? && email in response.value ==>
                usedCodes == FromArray(response.value[email])
      ensures !(response.Some? && email in response.value) ==> usedCodes == old(usedCodes)
    {
      loadsInFlight := loadsInFlight - 1;
      match response {
        case Some(data) =>
          if email in data {
            usedCodes := FromArray(data[email]);
          }
        case None =>
      }
    }

    /** `toggleUsed(index)` up to its request: a fresh copy of the set with
        the index flipped becomes the state, the request carries exactly
        that set in its order, and saving starts. */
    method ToggleUsed(index: int) returns (request: SaveRequest)
      requires Valid()
      modifies this`usedCodes, this`isSaving
      ensures Valid()
      ensures usedCodes == Toggle(old(usedCodes), index)
      ensures request == SaveRequest(email, usedCodes)
      ensures isSaving
    {
      var newSet := usedCodes;
      if index in newSet {
        newSet := Delete(newSet, index);
      } else {
        newSet := Add(newSet, index);
      }
      usedCodes := newSet;
      isSaving := true;
      request := SaveRequest(email, newSet);
    }

    /** The `finally` after the request: saving ends whether the request
        succeeded or failed, and the marks stay as they are. */
    method SaveSettled(outcome: SaveOutcome)
      modifies this`isSaving
      ensures !isSaving
    {
      isSaving := false;
    }
  }

  /** A dialog opened and closed again before its load request settles
      still takes the stored marks: the request is not cancelled. */
  method CloseBeforeLoadSettles(email: string, backupCodes: seq<string>, stored: seq<int>)
    returns (shown: seq<int>)
    ensures shown == FromArray(stored)
  {
    var modal := new Modal(email, backupCodes, false);
    modal.SetOpen(true);
    modal.StartLoad();
    modal.SetOpen(false);
    modal.LoadUsedCodes(Some(map[email := stored]));
    shown := modal.usedCodes;
  }
}
