/**
 The queue of callbacks to be run from the top-level event loop.
 */
module Callbacks {

  class IdempotentCallback {
    const fn: nat
    const ctx: object?
    var queued: bool

    constructor (fn: nat, ctx: object?)
      ensures this.fn == fn && this.ctx == ctx && !queued
    {
      this.fn, this.ctx, queued := fn, ctx, false;
    }
  }

  /** What an entry does: call a function, identified by a number, on a context; or run an idempotent callback. */
  datatype Action = Ordinary(fn: nat, ctx: object?) | RunIdempotent(ic: IdempotentCallback)

  /** The test of delete_callbacks_for_context. */
  predicate Concerns(a: Action, ctx: object?) {
    match a
    case Ordinary(_, c) => c == ctx
    case RunIdempotent(ic) => ic == ctx || ic.ctx == ctx
  }

  /** struct callback. */
  class Callback {
    var next: Callback?
    const action: Action

    constructor (action: Action)
      ensures this.action == action && next == null
    {
      this.action, next := action, null;
    }
  }

  // ------------------------------------------------------------------------ lists of nodes

  ghost predicate Distinct(nodes: seq<Callback>) {
    forall i, j :: 0 <= i < j < |nodes| ==> nodes[i] != nodes[j]
  }

  /** Each node points to the next. */
  ghost predicate Linked(nodes: seq<Callback>)
    reads nodes
  {
    forall i :: 0 <= i < |nodes| - 1 ==> nodes[i].next == nodes[i + 1]
  }

  /** The nodes are linked in order, and head and tail are the first and the last of them. */
  ghost predicate Chain(nodes: seq<Callback>, head: Callback?, tail: Callback?)
    reads nodes
  {
    Distinct(nodes) && Linked(nodes) && head == First(nodes) && tail == Last(nodes)
  }

  /** From head on, the list consists of these nodes, and then ends. */
  ghost predicate Ended(nodes: seq<Callback>, head: Callback?)
    reads nodes
  {
    Linked(nodes) && head == First(nodes) && (|nodes| > 0 ==> nodes[|nodes| - 1].next == null)
  }

  ghost function First(nodes: seq<Callback>): Callback? {
    if |nodes| == 0 then null else nodes[0]
  }

  ghost function Last(nodes: seq<Callback>): Callback? {
    if |nodes| == 0 then null else nodes[|nodes| - 1]
  }

  function Actions(nodes: seq<Callback>): (r: seq<Action>)
    ensures |r| == |nodes| && forall i :: 0 <= i < |nodes| ==> r[i] == nodes[i].action
  {
    seq(|nodes|, i requires 0 <= i < |nodes| => nodes[i].action)
  }

  /** The nodes that do not concern a context, in their order. */
  ghost function Kept(nodes: seq<Callback>, ctx: object?): (r: seq<Callback>)
    ensures forall i :: 0 <= i < |r| ==> r[i] in nodes && !Concerns(r[i].action, ctx)
  {
    if |nodes| == 0 then []
    else
      var init, last := Kept(nodes[..|nodes| - 1], ctx), nodes[|nodes| - 1];
      assert nodes == nodes[..|nodes| - 1] + [last];
      if Concerns(last.action, ctx) then init else init + [last]
  }

  /** The reference for deletion: the actions that do not concern a context, in their order. */
  function Filtered(actions: seq<Action>, ctx: object?): seq<Action> {
    if |actions| == 0 then []
    else if Concerns(actions[0], ctx) then Filtered(actions[1..], ctx)
    else [actions[0]] + Filtered(actions[1..], ctx)
  }

  lemma {:induction false} FilteredSnoc(actions: seq<Action>, a: Action, ctx: object?)
    ensures Filtered(actions + [a], ctx) == Filtered(actions, ctx) + if Concerns(a, ctx) then [] else [a]
  {
    if |actions| == 0 {
      assert actions + [a] == [a];
      assert Filtered([], ctx) == [];
    } else {
      assert (actions + [a])[1..] == actions[1..] + [a];
      FilteredSnoc(actions[1..], a, ctx);
    }
  }

  /** What deletion leaves, besides the order. */
  lemma {:induction false} FilteredMembers(actions: seq<Action>, ctx: object?, a: Action)
    ensures a in Filtered(actions, ctx) <==> a in actions && !Concerns(a, ctx)
  {
    if |actions| > 0 {
      FilteredMembers(actions[1..], ctx, a);
      assert actions == [actions[0]] + actions[1..];
    }
  }

  /** So deletion for a context removes the ordinary entries with that context, and the idempotent callbacks that are that
      context or have it, and nothing else. */
  lemma EntriesLeft(actions: seq<Action>, ctx: object?)
    ensures forall ic :: RunIdempotent(ic) in Filtered(actions, ctx) <==>
                           RunIdempotent(ic) in actions && ic != ctx && ic.ctx != ctx
    ensures forall fn, c :: Ordinary(fn, c) in Filtered(actions, ctx) <==> Ordinary(fn, c) in actions && c != ctx
  {
    hide Filtered;
    forall ic: IdempotentCallback
      ensures RunIdempotent(ic) in Filtered(actions, ctx) <==> RunIdempotent(ic) in actions && ic != ctx && ic.ctx != ctx
    {
      FilteredMembers(actions, ctx, RunIdempotent(ic));
    }
    forall fn: nat, c: object? ensures Ordinary(fn, c) in Filtered(actions, ctx) <==> Ordinary(fn, c) in actions && c != ctx {
      FilteredMembers(actions, ctx, Ordinary(fn, c));
    }
  }

  /** And it treats each entry for itself, so that what is left keeps its order and its multiplicity. */
  lemma {:induction false} FilteredAppend(xs: seq<Action>, ys: seq<Action>, ctx: object?)
    ensures Filtered(xs + ys, ctx) == Filtered(xs, ctx) + Filtered(ys, ctx)
  {
    if |xs| == 0 {
      assert xs + ys == ys;
    } else {
      assert (xs + ys)[1..] == xs[1..] + ys;
      FilteredAppend(xs[1..], ys, ctx);
    }
  }

  lemma {:induction false} KeptActions(nodes: seq<Callback>, ctx: object?)
    ensures Actions(Kept(nodes, ctx)) == Filtered(Actions(nodes), ctx)
  {
    if |nodes| == 0 {
      assert Actions(nodes) == [];
    } else {
      var init, last := nodes[..|nodes| - 1], nodes[|nodes| - 1];
      KeptActions(init, ctx);
      FilteredSnoc(Actions(init), last.action, ctx);
      assert Actions(nodes) == Actions(init) + [last.action];
      assert Actions(Kept(init, ctx) + [last]) == Actions(Kept(init, ctx)) + [last.action];
    }
  }

  lemma KeptStep(nodes: seq<Callback>, i: nat, ctx: object?)
    requires i < |nodes|
    ensures Kept(nodes[..i + 1], ctx) == Kept(nodes[..i], ctx) + if Concerns(nodes[i].action, ctx) then [] else [nodes[i]]
  {
    assert nodes[..i + 1][..i] == nodes[..i];
  }

  /** Deletion leaves each idempotent callback at most one entry. */
  lemma {:induction false} KeptUnique(nodes: seq<Callback>, ctx: object?)
    requires OneEntryEach(nodes)
    ensures OneEntryEach(Kept(nodes, ctx)) && Idempotents(Kept(nodes, ctx)) <= Idempotents(nodes)
  {
    if |nodes| > 0 {
      var init, last := nodes[..|nodes| - 1], nodes[|nodes| - 1];
      KeptUnique(init, ctx);
      var kept := Kept(init, ctx);
      assert forall i :: 0 <= i < |kept| ==> kept[i].action.RunIdempotent? ==> kept[i].action != last.action;
    }
  }

  // -------------------------------------------------------------------------- the queue

  class CallbackQueue {
    var cbcurr: Callback?
    var cbhead: Callback?
    var cbtail: Callback?
    var registered: bool
    var notified: nat
    ghost var nodes: seq<Callback>

    /** The list is null-terminated, the tail is its last node, and null exactly when the list is empty; the callback that
        is running is no longer in it. */
    ghost predicate Valid()
      reads this, nodes
    {
      && Distinct(nodes) && Linked(nodes) && (|nodes| > 0 ==> nodes[|nodes| - 1].next == null)
      && cbhead == First(nodes) && cbtail == Last(nodes)
      && (cbcurr != null ==> cbcurr !in nodes)
    }

    ghost function Contents(): seq<Action>
      reads this
    {
      Actions(nodes)
    }

    /** toplevel_callback_pending. */
    predicate Pending()
      reads this
    {
      cbcurr != null || cbhead != null
    }

    /** The flag tells whether there is an entry. */
    ghost predicate InStep(ic: IdempotentCallback)
      reads this, ic
    {
      ic.queued <==> RunIdempotent(ic) in Contents()
    }

    /** What can be seen of the queue, and of the flags of the callbacks in watch. */
    ghost function StateOf(watch: set<IdempotentCallback>): State
      reads this, watch
    {
      State(Contents(), cbcurr != null, set ic | ic in watch && ic.queued)
    }

    constructor ()
      ensures Valid() && Unique() && Contents() == [] && !Pending() && !registered && notified == 0
    {
      cbcurr, cbhead, cbtail, registered, notified, nodes := null, null, null, false, 0, [];
    }

    /** request_callback_notifications, with a function. */
    method RequestNotifications()
      requires Valid()
      modifies this`registered
      ensures Valid() && registered && nodes == old(nodes) && Pending() == old(Pending())
    {
      registered := true;
    }

    /** queue_toplevel_callback. */
    method Queue(fn: nat, ctx: object?)
      requires Valid() && Unique()
      modifies this`cbhead, this`cbtail, this`notified, this`nodes, nodes
      ensures Valid() && Unique() && Contents() == old(Contents()) + [Ordinary(fn, ctx)]
      ensures notified == old(notified) + (if registered && !old(Pending()) && Pending() then 1 else 0)
      ensures old(nodes) <= nodes && forall i :: |old(nodes)| <= i < |nodes| ==> fresh(nodes[i])
      ensures Idempotents(nodes) <= old(Idempotents(nodes))
      ensures forall ic :: old(allocated(ic)) ==> (InStep(ic) <==> old(InStep(ic)))
    {
      hide Linked, Distinct;
      Enqueue(Ordinary(fn, ctx));
    }

    /** Add an entry at the tail. The front end is told just when there was nothing pending. */
    method Enqueue(action: Action)
      requires Valid()
      modifies this`cbhead, this`cbtail, this`notified, this`nodes, nodes
      ensures Valid() && Contents() == old(Contents()) + [action] && Pending()
      ensures notified == old(notified) + (if registered && !old(Pending()) then 1 else 0)
      ensures |nodes| == |old(nodes)| + 1 && nodes[..|old(nodes)|] == old(nodes) && fresh(nodes[|old(nodes)|])
    {
      var cb := new Callback(action);
      if registered && cbhead == null && cbcurr == null {
        notified := notified + 1;
      }
      if cbtail != null {
        cbtail.next := cb;
      } else {
        cbhead := cb;
      }
      cbtail := cb;
      cb.next := null;
      nodes := nodes + [cb];
    }

    /** Link a node that is kept after those kept before it. */
    static method Append(newhead: Callback?, newtail: Callback?, cb: Callback, ghost kept: seq<Callback>)
      returns (head: Callback?, tail: Callback?)
      requires Chain(kept, newhead, newtail) && cb !in kept
      modifies if newtail == null then {} else {newtail}
      ensures Chain(kept + [cb], head, tail)
    {
      head := newhead;
      if head == null {
        head := cb;
      } else {
        newtail.next := cb;
      }
      tail := cb;
    }

    /** The loop of delete_callbacks_for_context: take nodes off the head, and link those that are kept to one another. */
    method TakeApart(ctx: object?) returns (newhead: Callback?, newtail: Callback?, ghost kept: seq<Callback>)
      requires Valid()
      modifies this`cbhead, nodes
      ensures kept == Kept(nodes, ctx) && Chain(kept, newhead, newtail)
    {
      hide Kept, Chain, Ended, Linked;
      ghost var all, i := nodes, 0;
      kept := [];
      StartApart(all, cbhead, ctx);
      newhead, newtail := null, null;
      while cbhead != null
        invariant 0 <= i <= |all| && Ended(all[i..], cbhead)
        invariant kept == Kept(all[..i], ctx) && Chain(kept, newhead, newtail)
        decreases |all| - i
      {
        var cb := cbhead;
        EndedHead(all, i, cb);
        Separated(all, i, ctx, newhead, newtail);
        KeptStep(all, i, ctx);
        cbhead := cbhead.next;
        ghost var rest := all[i + 1..];
        assert Ended(rest, cbhead) && (newtail != null ==> newtail !in rest);
        if !Concerns(cb.action, ctx) {
          newhead, newtail := Append(newhead, newtail, cb, kept);
          assert Ended(rest, cbhead);
          kept := kept + [cb];
        }
        i := i + 1;
      }
      AllTaken(all, i);
    }

    /** delete_callbacks_for_context: a stable filter. */
    method DeleteForContext(ctx: object?)
      requires Valid()
      modifies this`cbhead, this`cbtail, this`nodes, nodes
      ensures Valid() && Contents() == Filtered(old(Contents()), ctx)
      ensures forall fn, c :: Ordinary(fn, c) in Contents() <==> Ordinary(fn, c) in old(Contents()) && c != ctx
      ensures forall ic :: RunIdempotent(ic) in Contents() <==> RunIdempotent(ic) in old(Contents()) && ic != ctx && ic.ctx != ctx
      ensures nodes == Kept(old(nodes), ctx)
      ensures old(Unique()) ==> Unique()
      ensures Pending() ==> old(Pending())
      ensures forall ic :: old(allocated(ic)) && old(InStep(ic)) ==>
                (InStep(ic) <==> !old(ic.queued) || (ic != ctx && ic.ctx != ctx))
      ensures forall ic :: old(allocated(ic)) && !old(InStep(ic)) && old(Unique()) ==> !InStep(ic)
      ensures old(Unique()) ==> Idempotents(nodes) <= old(Idempotents(nodes))
    {
      hide Kept, Linked, Distinct, Filtered, Concerns, Chain, OneEntryEach, Actions;
      ghost var all, kept := nodes, [];
      var newhead, newtail;
      newhead, newtail, kept := TakeApart(ctx);
      KeptActions(all, ctx);
      if OneEntryEach(all) {
        KeptUnique(all, ctx);
      }
      ChainMembers(kept, newhead, newtail);
      Install(newhead, newtail, kept);
      if kept != [] {
        assert kept[0] in all;
      }
      EntriesLeft(Actions(all), ctx);
    }

    /** Make the nodes that are kept the queue. */
    method Install(newhead: Callback?, newtail: Callback?, ghost kept: seq<Callback>)
      requires Chain(kept, newhead, newtail)
      requires cbcurr != null ==> cbcurr !in kept
      modifies this`cbhead, this`cbtail, this`nodes, if newtail == null then {} else {newtail}
      ensures Valid() && nodes == kept
    {
      cbhead := newhead;
      cbtail := newtail;
      if newtail != null {
        newtail.next := null;
      }
      nodes := kept;
    }

    /** Transfer the head into cbcurr. */
    method PopHead()
      requires Valid() && cbcurr == null && |nodes| > 0
      modifies this`cbcurr, this`cbhead, this`cbtail, this`nodes
      ensures Valid() && nodes == old(nodes)[1..] && cbcurr == old(nodes)[0]
    {
      cbcurr := cbhead;
      cbhead := cbhead.next;
      if cbhead == null {
        cbtail := null;
      }
      ghost var all := nodes;
      nodes := nodes[1..];
      assert all == [cbcurr] + nodes;
    }

    /** run_toplevel_callbacks, up to the call: the head becomes the callback that is running. An idempotent callback is no
        longer queued from here on. */
    method Begin() returns (action: Option)
      requires Valid() && cbcurr == null && Unique()
      modifies this`cbcurr, this`cbhead, this`cbtail, this`nodes, Idempotents(nodes)
      ensures Valid() && Unique() && notified == old(notified)
      ensures old(Contents()) == [] ==> action == None && cbcurr == null && nodes == old(nodes)
      ensures old(Contents()) != [] ==>
                action == Some(old(Contents())[0]) && Contents() == old(Contents())[1..] && cbcurr != null && Pending()
      ensures nodes == old(nodes) || (|old(nodes)| > 0 && nodes == old(nodes)[1..])
      ensures forall ic :: ic in Idempotents(old(nodes)) ==> ic.queued == (action != Some(RunIdempotent(ic)))
      ensures forall ic: IdempotentCallback :: old(allocated(ic)) ==> ic.queued == (old(ic.queued) && action != Some(RunIdempotent(ic)))
      ensures Idempotents(nodes) <= old(Idempotents(nodes))
      ensures forall ic :: old(allocated(ic)) ==> (InStep(ic) <==> old(InStep(ic)))
    {
      hide Linked, Distinct;
      ghost var all := nodes;
      if cbhead == null {
        return None;
      }
      PopHead();
      action := Some(cbcurr.action);
      AfterHead(all);
      if cbcurr.action.RunIdempotent? {
        cbcurr.action.ic.queued := false;
      }
    }

    /** run_toplevel_callbacks, after the call. */
    method End()
      requires Valid() && cbcurr != null
      modifies this`cbcurr
      ensures Valid() && cbcurr == null && Contents() == old(Contents()) && (Pending() <==> Contents() != [])
      ensures old(Unique()) ==> Unique()
      ensures Idempotents(nodes) <= old(Idempotents(nodes))
      ensures forall ic :: old(allocated(ic)) ==> (InStep(ic) <==> old(InStep(ic)))
    {
      cbcurr := null;
    }

    // ----------------------------------------------------------------- idempotent callbacks

    /** Each idempotent callback has one entry at most, and one that has an entry has its flag set. */
    ghost predicate Unique()
      reads this, Idempotents(nodes)
    {
      OneEntryEach(nodes) && forall ic :: ic in Idempotents(nodes) ==> ic.queued
    }

    /** queue_idempotent_callback. */
    method QueueIdempotent(ic: IdempotentCallback)
      requires Valid() && Unique()
      modifies this`cbhead, this`cbtail, this`notified, this`nodes, nodes, ic`queued
      ensures Valid() && Unique() && ic.queued
      ensures Contents() == if old(ic.queued) then old(Contents()) else old(Contents()) + [RunIdempotent(ic)]
      ensures notified == old(notified) + (if registered && !old(Pending()) && Pending() then 1 else 0)
      ensures old(nodes) <= nodes && forall i :: |old(nodes)| <= i < |nodes| ==> fresh(nodes[i])
      ensures forall other :: old(allocated(other)) ==> (InStep(other) <==> old(InStep(other)))
      ensures Idempotents(nodes) <= old(Idempotents(nodes)) + {ic}
    {
      hide Actions;
      if ic.queued {
        return;
      }
      assert ic !in Idempotents(nodes);
      ic.queued := true;
      Enqueue(RunIdempotent(ic));
    }
  }

  /** The idempotent callbacks that have an entry. */
  ghost function Idempotents(nodes: seq<Callback>): set<IdempotentCallback> {
    set i | 0 <= i < |nodes| && nodes[i].action.RunIdempotent? :: nodes[i].action.ic
  }

  ghost predicate OneEntryEach(nodes: seq<Callback>) {
    forall i, j :: 0 <= i < j < |nodes| && nodes[i].action.RunIdempotent? ==> nodes[i].action != nodes[j].action
  }

  lemma AfterHead(all: seq<Callback>)
    requires OneEntryEach(all) && |all| > 0
    ensures OneEntryEach(all[1..]) && Actions(all[1..]) == Actions(all)[1..]
    ensures forall ic :: ic in Idempotents(all[1..]) ==> ic in Idempotents(all) && all[0].action != RunIdempotent(ic)
    ensures forall ic :: ic in Idempotents(all) ==> ic in Idempotents(all[1..]) || all[0].action == RunIdempotent(ic)
    ensures all[0].action.RunIdempotent? ==> all[0].action.ic in Idempotents(all)
  {
    var rest := all[1..];
    assert forall i :: 0 <= i < |rest| ==> rest[i] == all[i + 1];
    forall ic | ic in Idempotents(all) ensures ic in Idempotents(rest) || all[0].action == RunIdempotent(ic) {
      var i :| 0 <= i < |all| && all[i].action.RunIdempotent? && all[i].action.ic == ic;
      if i > 0 {
        assert rest[i - 1] == all[i];
      }
    }
  }

  datatype Option = None | Some(value: Action)

  lemma ChainMembers(kept: seq<Callback>, newhead: Callback?, newtail: Callback?)
    requires Chain(kept, newhead, newtail)
    ensures newtail != null ==> newtail in kept
    ensures newhead == First(kept)
  {
  }

  lemma StartApart(all: seq<Callback>, head: Callback?, ctx: object?)
    requires Linked(all) && head == First(all) && (|all| > 0 ==> all[|all| - 1].next == null)
    ensures Ended(all[0..], head) && Kept(all[..0], ctx) == [] && Chain([], null, null)
  {
    assert all[0..] == all;
  }

  lemma EndedHead(all: seq<Callback>, i: nat, head: Callback)
    requires i <= |all| && Ended(all[i..], head)
    ensures i < |all| && head == all[i] && Ended(all[i + 1..], head.next)
  {
    var rest := all[i..];
    assert all[i + 1..] == rest[1..];
  }

  lemma AllTaken(all: seq<Callback>, i: nat)
    requires i <= |all| && Ended(all[i..], null)
    ensures all[..i] == all
  {
    var rest := all[i..];
    assert |rest| == 0;
  }

  /** What is kept so far has no node in common with what is still to be looked at. */
  lemma Separated(all: seq<Callback>, i: nat, ctx: object?, newhead: Callback?, newtail: Callback?)
    requires Distinct(all) && i < |all| && Chain(Kept(all[..i], ctx), newhead, newtail)
    ensures all[i] !in Kept(all[..i], ctx)
    ensures newtail != null ==> newtail in all && newtail !in all[i + 1..]
  {
    var kept := Kept(all[..i], ctx);
    assert forall j :: 0 <= j < |kept| ==> kept[j] in all[..i];
  }

  /** A flag that is set does not imply an entry: a callback whose entry is deleted keeps its flag, and is not queued when
      next asked for. */
  method DeletedAndAskedForAgain(q: CallbackQueue, ic: IdempotentCallback)
    requires q.Valid() && q.Unique() && RunIdempotent(ic) in q.Contents()
    modifies q, q.nodes, ic
    ensures q.Valid() && q.Unique() && ic.queued && RunIdempotent(ic) !in q.Contents()
  {
    hide Linked, Distinct, Kept, Filtered;
    assert ic in Idempotents(q.nodes) by {
      var i :| 0 <= i < |q.nodes| && q.Contents()[i] == RunIdempotent(ic);
      assert q.nodes[i].action == RunIdempotent(ic);
    }
    FilteredMembers(q.Contents(), ic.ctx, RunIdempotent(ic));
    q.DeleteForContext(ic.ctx);
    q.QueueIdempotent(ic);
  }

  // ------------------------------------------------------------------------- whole runs

  /** What can happen to a queue. A callback begins to run only when none is running, and only a running one ends. */
  datatype Event = Add(fn: nat, ctx: object?) | Ask(ic: IdempotentCallback) | Delete(ctx: object?) | Begin | End

  /** A queue from outside: its entries, whether a callback is running, and which idempotent callbacks have their flag
      set. */
  datatype State = State(entries: seq<Action>, running: bool, queued: set<IdempotentCallback>)

  /** What each event does to it. */
  function After(s: State, e: Event): State {
    match e
    case Add(fn, ctx) => s.(entries := s.entries + [Ordinary(fn, ctx)])
    case Ask(ic) => if ic in s.queued then s else s.(entries := s.entries + [RunIdempotent(ic)], queued := s.queued + {ic})
    case Delete(ctx) => s.(entries := Filtered(s.entries, ctx))
    case Begin =>
      if s.running || |s.entries| == 0 then s
      else State(s.entries[1..], true, if s.entries[0].RunIdempotent? then s.queued - {s.entries[0].ic} else s.queued)
    case End => s.(running := false)
  }

  function AfterAll(s: State, events: seq<Event>): State {
    if |events| == 0 then s else After(AfterAll(s, events[..|events| - 1]), events[|events| - 1])
  }

  /** The flag tells whether there is an entry. */
  predicate Agrees(s: State, ic: IdempotentCallback) {
    ic in s.queued <==> RunIdempotent(ic) in s.entries
  }

  /** An entry for an idempotent callback is the only one, and the flag is set. */
  ghost predicate Sound(s: State) {
    && (forall i :: 0 <= i < |s.entries| && s.entries[i].RunIdempotent? ==> s.entries[i].ic in s.queued)
    && (forall i, j :: 0 <= i < j < |s.entries| && s.entries[i].RunIdempotent? ==> s.entries[i] != s.entries[j])
  }

  predicate DeletesFor(e: Event, ic: IdempotentCallback) {
    e.Delete? && (e.ctx == ic || e.ctx == ic.ctx)
  }

  lemma AfterSound(s: State, e: Event)
    requires Sound(s)
    ensures Sound(After(s, e))
  {
    hide Filtered;
    if e.Delete? {
      FilteredSound(s.entries, s, e.ctx);
    }
  }

  lemma {:induction false} FilteredSound(entries: seq<Action>, s: State, ctx: object?)
    requires Sound(s.(entries := entries))
    ensures Sound(s.(entries := Filtered(entries, ctx)))
  {
    if |entries| > 0 {
      var rest := entries[1..];
      assert forall i :: 0 <= i < |rest| ==> rest[i] == entries[i + 1];
      FilteredSound(rest, s, ctx);
      if !Concerns(entries[0], ctx) && entries[0].RunIdempotent? {
        FilteredMembers(rest, ctx, entries[0]);
      }
    }
  }

  /** Only a deletion that meets the callback while queued parts flag and entry, and nothing joins them again. */
  lemma AfterAgrees(s: State, e: Event, ic: IdempotentCallback)
    requires Sound(s)
    ensures Agrees(After(s, e), ic) <==> Agrees(s, ic) && !(DeletesFor(e, ic) && ic in s.queued)
  {
    hide Filtered;
    if e.Delete? {
      FilteredMembers(s.entries, e.ctx, RunIdempotent(ic));
    }
  }

  /** Over any run, the flag of a callback goes on telling whether it has an entry exactly if no deletion for it, or for its
      context, comes while it is queued. */
  lemma {:induction false} AgreesExactly(s: State, events: seq<Event>, ic: IdempotentCallback)
    requires Sound(s)
    ensures Sound(AfterAll(s, events))
    ensures Agrees(AfterAll(s, events), ic) <==>
            Agrees(s, ic) && forall k :: 0 <= k < |events| && DeletesFor(events[k], ic) ==> ic !in AfterAll(s, events[..k]).queued
    decreases |events|
  {
    hide After, Sound, Agrees, DeletesFor;
    if |events| > 0 {
      var n := |events| - 1;
      var init := events[..n];
      AgreesExactly(s, init, ic);
      AfterSound(AfterAll(s, init), events[n]);
      AfterAgrees(AfterAll(s, init), events[n], ic);
      assert forall k :: 0 <= k < n ==> init[..k] == events[..k];
    }
  }

  /** The entries that an event adds. An idempotent callback that is already queued adds none. */
  function AddedBy(s: State, e: Event): seq<Action> {
    match e
    case Add(fn, ctx) => [Ordinary(fn, ctx)]
    case Ask(ic) => if ic in s.queued then [] else [RunIdempotent(ic)]
    case _ => []
  }

  /** The callback that it begins. None begins while another is running. */
  function BegunBy(s: State, e: Event): seq<Action> {
    if e.Begin? && !s.running && |s.entries| > 0 then [s.entries[0]] else []
  }

  /** The entries that it deletes. */
  ghost function DeletedBy(s: State, e: Event): multiset<Action> {
    if e.Delete? then multiset(s.entries) - multiset(Filtered(s.entries, e.ctx)) else multiset{}
  }

  function Added(s: State, events: seq<Event>): seq<Action> {
    if |events| == 0 then []
    else
      var init, e := events[..|events| - 1], events[|events| - 1];
      Added(s, init) + AddedBy(AfterAll(s, init), e)
  }

  function Begun(s: State, events: seq<Event>): seq<Action> {
    if |events| == 0 then []
    else
      var init, e := events[..|events| - 1], events[|events| - 1];
      Begun(s, init) + BegunBy(AfterAll(s, init), e)
  }

  ghost function Deleted(s: State, events: seq<Event>): multiset<Action> {
    if |events| == 0 then multiset{}
    else
      var init, e := events[..|events| - 1], events[|events| - 1];
      Deleted(s, init) + DeletedBy(AfterAll(s, init), e)
  }

  lemma InOrder(s: State, e: Event)
    requires !e.Delete?
    ensures s.entries + AddedBy(s, e) == BegunBy(s, e) + After(s, e).entries
  {
    if e.Begin? && !s.running && |s.entries| > 0 {
      assert s.entries == [s.entries[0]] + s.entries[1..];
    }
  }

  lemma Conserved(s: State, e: Event)
    ensures multiset(s.entries) + multiset(AddedBy(s, e)) == multiset(BegunBy(s, e)) + DeletedBy(s, e) + multiset(After(s, e).entries)
  {
    hide Filtered;
    if e.Delete? {
      FilteredFewer(s.entries, e.ctx);
    } else {
      InOrder(s, e);
      assert multiset(s.entries + AddedBy(s, e)) == multiset(BegunBy(s, e) + After(s, e).entries);
    }
  }

  /** First come, first served: in a run without deletions, what was queued is what has begun, in order, and then what is
      left. */
  lemma {:induction false} FirstComeFirstServed(s: State, events: seq<Event>)
    requires forall i :: 0 <= i < |events| ==> !events[i].Delete?
    ensures s.entries + Added(s, events) == Begun(s, events) + AfterAll(s, events).entries
    decreases |events|
  {
    hide After, AddedBy, BegunBy;
    if |events| > 0 {
      var init, e := events[..|events| - 1], events[|events| - 1];
      FirstComeFirstServed(s, init);
      var before := AfterAll(s, init);
      InOrder(before, e);
      calc {
        s.entries + (Added(s, init) + AddedBy(before, e));
        Begun(s, init) + before.entries + AddedBy(before, e);
        Begun(s, init) + (BegunBy(before, e) + After(before, e).entries);
      }
    }
  }

  /** Over any run nothing is lost and nothing happens twice: what was queued has begun, has been deleted, or is left. */
  lemma {:induction false} NothingLost(s: State, events: seq<Event>)
    ensures multiset(s.entries) + multiset(Added(s, events)) ==
            multiset(Begun(s, events)) + Deleted(s, events) + multiset(AfterAll(s, events).entries)
    decreases |events|
  {
    hide After, AddedBy, BegunBy, DeletedBy;
    if |events| > 0 {
      var init, e := events[..|events| - 1], events[|events| - 1];
      var before := AfterAll(s, init);
      NothingLost(s, init);
      Conserved(before, e);
      Balanced(multiset(s.entries), Added(s, init), Begun(s, init), Deleted(s, init), multiset(before.entries),
               AddedBy(before, e), BegunBy(before, e), DeletedBy(before, e), multiset(After(before, e).entries));
    }
  }

  lemma Balanced(start: multiset<Action>, added: seq<Action>, begun: seq<Action>, deleted: multiset<Action>, left: multiset<Action>,
                 added': seq<Action>, begun': seq<Action>, deleted': multiset<Action>, left': multiset<Action>)
    requires start + multiset(added) == multiset(begun) + deleted + left
    requires left + multiset(added') == multiset(begun') + deleted' + left'
    ensures start + multiset(added + added') == multiset(begun + begun') + (deleted + deleted') + left'
  {
    var x, y := start + multiset(added + added'), multiset(begun + begun') + (deleted + deleted') + left';
    forall a ensures x[a] == y[a] {
      var p, q := start + multiset(added), left + multiset(added');
      assert p[a] == start[a] + multiset(added)[a] && q[a] == left[a] + multiset(added')[a];
      assert p[a] == multiset(begun)[a] + deleted[a] + left[a] && q[a] == multiset(begun')[a] + deleted'[a] + left'[a];
    }
  }

  lemma {:induction false} FilteredFewer(actions: seq<Action>, ctx: object?)
    ensures multiset(Filtered(actions, ctx)) <= multiset(actions)
  {
    if |actions| > 0 {
      FilteredFewer(actions[1..], ctx);
      assert actions == [actions[0]] + actions[1..];
    }
  }

  /** One event, performed on a queue whose idempotent callbacks are all in watch. */
  method Perform(q: CallbackQueue, e: Event, ghost watch: set<IdempotentCallback>) returns (begun: seq<Action>)
    requires q.Valid() && q.Unique() && Idempotents(q.nodes) <= watch && (e.Ask? ==> e.ic in watch)
    modifies q, q.nodes, Idempotents(q.nodes), if e.Ask? then {e.ic} else {}
    ensures q.Valid() && q.Unique() && Idempotents(q.nodes) <= watch
    ensures forall j :: 0 <= j < |q.nodes| ==> q.nodes[j] in old(q.nodes) || fresh(q.nodes[j])
    ensures Idempotents(q.nodes) <= Idempotents(old(q.nodes)) + if e.Ask? then {e.ic} else {}
    ensures q.StateOf(watch) == After(old(q.StateOf(watch)), e) && begun == BegunBy(old(q.StateOf(watch)), e)
    ensures forall ic :: old(allocated(ic)) ==> (q.InStep(ic) <==> old(q.InStep(ic)) && !(DeletesFor(e, ic) && old(ic.queued)))
  {
    hide CallbackQueue.Valid, CallbackQueue.Unique, CallbackQueue.InStep, Idempotents, CallbackQueue.Contents, Filtered, Kept;
    begun := [];
    match e
    case Add(fn, ctx) => q.Queue(fn, ctx);
    case Ask(ic) => PerformAsk(q, ic, watch);
    case Delete(ctx) => q.DeleteForContext(ctx);
    case Begin => begun := PerformBegin(q, watch);
    case End =>
      if q.cbcurr != null {
        q.End();
      }
  }

  method PerformAsk(q: CallbackQueue, ic: IdempotentCallback, ghost watch: set<IdempotentCallback>)
    requires q.Valid() && q.Unique() && Idempotents(q.nodes) <= watch && ic in watch
    modifies q, q.nodes, ic
    ensures q.Valid() && q.Unique()
    ensures forall j :: 0 <= j < |q.nodes| ==> q.nodes[j] in old(q.nodes) || fresh(q.nodes[j])
    ensures Idempotents(q.nodes) <= old(Idempotents(q.nodes)) + {ic}
    ensures q.StateOf(watch) == After(old(q.StateOf(watch)), Ask(ic))
    ensures forall other :: old(allocated(other)) ==> (q.InStep(other) <==> old(q.InStep(other)))
  {
    hide CallbackQueue.Valid, CallbackQueue.Unique, CallbackQueue.InStep, Idempotents, CallbackQueue.Contents;
    ghost var s := q.StateOf(watch);
    q.QueueIdempotent(ic);
    assert q.StateOf(watch).queued == s.queued + {ic};
  }

  method PerformBegin(q: CallbackQueue, ghost watch: set<IdempotentCallback>) returns (begun: seq<Action>)
    requires q.Valid() && q.Unique() && Idempotents(q.nodes) <= watch
    modifies q, Idempotents(q.nodes)
    ensures q.Valid() && q.Unique()
    ensures forall j :: 0 <= j < |q.nodes| ==> q.nodes[j] in old(q.nodes)
    ensures Idempotents(q.nodes) <= old(Idempotents(q.nodes))
    ensures q.StateOf(watch) == After(old(q.StateOf(watch)), Begin) && begun == BegunBy(old(q.StateOf(watch)), Begin)
    ensures forall ic :: old(allocated(ic)) ==> (q.InStep(ic) <==> old(q.InStep(ic)))
  {
    hide CallbackQueue.Valid, CallbackQueue.Unique, CallbackQueue.InStep, Idempotents, Actions;
    ghost var s := q.StateOf(watch);
    begun := [];
    if q.cbcurr == null {
      var action := q.Begin();
      begun := if action.Some? then [action.value] else [];
      assert action.Some? && action.value.RunIdempotent? ==> q.StateOf(watch).queued == s.queued - {action.value.ic};
      assert !(action.Some? && action.value.RunIdempotent?) ==> q.StateOf(watch).queued == s.queued;
    }
  }

  ghost function Asked(events: seq<Event>): set<IdempotentCallback> {
    set i | 0 <= i < |events| && events[i].Ask? :: events[i].ic
  }

  /** Any run of events, and the callbacks that it begins. */
  method PerformAll(q: CallbackQueue, events: seq<Event>, ghost watch: set<IdempotentCallback>) returns (begun: seq<Action>)
    requires q.Valid() && q.Unique() && Idempotents(q.nodes) <= watch && Asked(events) <= watch
    modifies q, q.nodes, Idempotents(q.nodes), Asked(events)
    ensures q.Valid() && q.Unique() && Idempotents(q.nodes) <= watch
    ensures q.StateOf(watch) == AfterAll(old(q.StateOf(watch)), events) && begun == Begun(old(q.StateOf(watch)), events)
    ensures Sound(old(q.StateOf(watch)))
    ensures forall ic :: ic in watch ==> (q.InStep(ic) <==> Agrees(q.StateOf(watch), ic))
    ensures forall ic :: ic in watch ==>
              (q.InStep(ic) <==> old(q.InStep(ic)) && forall k :: 0 <= k < |events| && DeletesFor(events[k], ic) ==>
                ic !in AfterAll(old(q.StateOf(watch)), events[..k]).queued)
  {
    hide CallbackQueue.Valid, Idempotents, AfterAll, After, Filtered, Begun, BegunBy;
    SoundState(q, watch);
    ghost var s := q.StateOf(watch);
    var i := 0;
    begun := [];
    NoEvents(s, events);
    while i < |events|
      invariant 0 <= i <= |events| && q.Valid() && q.Unique()
      invariant forall j :: 0 <= j < |q.nodes| ==> q.nodes[j] in old(q.nodes) || fresh(q.nodes[j])
      invariant Idempotents(q.nodes) <= Idempotents(old(q.nodes)) + Asked(events)
      invariant q.StateOf(watch) == AfterAll(s, events[..i]) && begun == Begun(s, events[..i])
    {
      assert events[i].Ask? ==> events[i].ic in Asked(events);
      var more := Perform(q, events[i], watch);
      begun := begun + more;
      OneMore(s, events, i);
      i := i + 1;
    }
    assert events[..i] == events;
    forall ic | ic in watch
      ensures q.InStep(ic) <==> old(q.InStep(ic)) && forall k :: 0 <= k < |events| && DeletesFor(events[k], ic) ==>
                ic !in AfterAll(s, events[..k]).queued
    {
      AgreesExactly(s, events, ic);
    }
  }

  lemma NoEvents(s: State, events: seq<Event>)
    ensures AfterAll(s, events[..0]) == s && Begun(s, events[..0]) == []
  {
  }

  lemma OneMore(s: State, events: seq<Event>, i: nat)
    requires i < |events|
    ensures AfterAll(s, events[..i + 1]) == After(AfterAll(s, events[..i]), events[i])
    ensures Begun(s, events[..i + 1]) == Begun(s, events[..i]) + BegunBy(AfterAll(s, events[..i]), events[i])
  {
    assert events[..i + 1][..i] == events[..i];
  }

  lemma SoundState(q: CallbackQueue, watch: set<IdempotentCallback>)
    requires q.Unique() && Idempotents(q.nodes) <= watch
    ensures Sound(q.StateOf(watch))
    ensures forall ic :: ic in watch ==> (q.InStep(ic) <==> Agrees(q.StateOf(watch), ic))
  {
    assert forall i :: 0 <= i < |q.nodes| && q.nodes[i].action.RunIdempotent? ==> q.nodes[i].action.ic in Idempotents(q.nodes);
  }
}
