/** The queue for answers of the local model (_slot, _release and chat of src/ai/ai.js): one
    request runs, two wait, in the order they came. */
module ChatQueue {
  import opened Sequences

  const MAX_ACTIVE := 1
  const MAX_WAITING := 2

  datatype Admission = Granted | Queued | Busy

  /** `s` without the elements of `out`. */
  ghost function Without(s: seq<nat>, out: set<nat>): (r: seq<nat>)
  {
    Filter(s, x => x !in out)
  }

  lemma WithoutSnoc(s: seq<nat>, x: nat, out: set<nat>)
    ensures Without(s + [x], out) == Without(s, out) + if x in out then [] else [x]
  {
    FilterSnoc(s, x, y => y !in out);
  }

  lemma WithoutMembers(s: seq<nat>, out: set<nat>, x: nat)
    ensures x in Without(s, out) <==> x in s && x !in out
  {
    FilterMembers(s, y => y !in out, x);
  }

  lemma WithoutOneMore(s: seq<nat>, out: set<nat>, x: nat)
    ensures Without(s, out + {x}) == Without(Without(s, out), {x})
  {
    var one, both := {x}, out + {x};
    FilterTwice(s, y => y !in out, y => y !in one, y => y !in both);
  }

  lemma NotThere(s: seq<nat>, x: nat)
    requires x !in s
    ensures Without(s, {x}) == s
  {
    var one := {x};
    FilterAll(s, y => y !in one);
  }

  lemma Removed(s: seq<nat>, i: nat)
    requires i < |s| && Distinct(s)
    ensures Without(s, {s[i]}) == s[..i] + s[i + 1..]
  {
    var one := {s[i]};
    FilterButOne(s, i, y => y !in one);
  }

  class Slots {
    var active: int
    var waiting: seq<nat>
    // What happened so far: who got into the queue, who left it while waiting, who got
    // the slot, and who has given it back.
    ghost var admitted: seq<nat>
    ghost var aborted: set<nat>
    ghost var granted: seq<nat>
    ghost var released: nat

    /** At most one request holds the slot: the last one that got it, until it gives it back.
        Requests wait only while it is held. Whoever got in and did not leave has got the
        slot or waits for it, in the order of arrival. */
    ghost predicate Valid()
      reads this
    {
      && 0 <= active <= 1 && |granted| == released + active
      && |waiting| <= 2 && (waiting != [] ==> active == 1)
      && (forall x :: x in aborted ==> x in admitted)
      && Distinct(admitted) && Distinct(granted + waiting) && Without(admitted, aborted) == granted + waiting
    }

    constructor ()
      ensures Valid() && active == 0 && waiting == [] && admitted == []
    {
      active, waiting := 0, [];
      admitted, aborted, granted, released := [], {}, [], 0;
    }

    /** A request gets the slot if it is free, waits if there is room, and is refused otherwise. */
    method Slot(id: nat) returns (r: Admission)
      requires Valid() && id !in admitted
      modifies this
      ensures Valid() && aborted == old(aborted) && released == old(released)
      ensures r == if old(active) < 1 then Granted else if |old(waiting)| < 2 then Queued else Busy
      ensures granted == (if r == Granted then old(granted) + [id] else old(granted))
      ensures waiting == (if r == Queued then old(waiting) + [id] else old(waiting))
      ensures admitted == (if r == Busy then old(admitted) else old(admitted) + [id])
    {
      hide Without;
      if active >= MAX_ACTIVE && |waiting| >= MAX_WAITING {
        return Busy;
      }
      WithoutSnoc(admitted, id, aborted);
      WithoutMembers(admitted, aborted, id);
      admitted := admitted + [id];
      if active < MAX_ACTIVE {
        active := active + 1;
        granted := granted + [id];
        assert granted + waiting == granted && old(granted) + old(waiting) == old(granted);
        return Granted;
      }
      assert granted + (waiting + [id]) == granted + waiting + [id];
      waiting := waiting + [id];
      r := Queued;
    }

    /** The holder gives the slot back, and the first who waits gets it; only if nobody waits it is free. */
    method Release()
      requires Valid()
      modifies this
      ensures Valid() && aborted == old(aborted) && admitted == old(admitted) && released == old(released) + old(active)
      ensures if old(waiting) == [] then active == 0 && waiting == [] && granted == old(granted)
              else active == 1 && waiting == old(waiting)[1..] && granted == old(granted) + [old(waiting)[0]]
    {
      hide Without;
      released := released + active;
      if waiting != [] {
        assert granted + waiting == granted + [waiting[0]] + waiting[1..];
        granted := granted + [waiting[0]];
        waiting := waiting[1..];
      } else {
        active := if active - 1 < 0 then 0 else active - 1;
      }
    }

    /** A request is broken off: if it waits it leaves the queue, otherwise nothing changes here. */
    method Abort(id: nat)
      requires Valid()
      modifies this
      ensures Valid() && active == old(active) && granted == old(granted) && admitted == old(admitted)
              && released == old(released)
      ensures if id in old(waiting) then aborted == old(aborted) + {id} else aborted == old(aborted)
      ensures waiting == Without(old(waiting), {id})
    {
      hide Without;
      var i := 0;
      while i < |waiting| && waiting[i] != id
        invariant 0 <= i <= |waiting| && forall j :: 0 <= j < i ==> waiting[j] != id
      {
        i := i + 1;
      }
      if i < |waiting| {
        ghost var all, k := granted + waiting, |granted| + i;
        assert all[k] == id;
        WithoutMembers(admitted, aborted, id);
        WithoutOneMore(admitted, aborted, id);
        Removed(all, k);
        Removed(waiting, i);
        assert all[..k] + all[k + 1..] == granted + (waiting[..i] + waiting[i + 1..]);
        waiting := waiting[..i] + waiting[i + 1..];
        aborted := aborted + {id};
      } else {
        NotThere(waiting, id);
      }
    }
  }

  /** The calls of chat: each asks for the slot, runs once it has it, and gives it back when it ends,
      however it ends. An await ends a method: in between, other calls go on. */
  class Service {
    const slots: Slots
    var running: set<nat>
    /** The calls that ran and ended, in order. */
    ghost var ended: seq<nat>

    /** The call that has the slot, if any. */
    ghost function Holder(): set<nat>
      reads this, slots
    {
      if slots.active == 1 && slots.released < |slots.granted| then {slots.granted[slots.released]} else {}
    }

    /** Every grant but that of the holder has been given back by its own call, once and in order; only
        the holder runs, so that at most one call runs at a time. */
    ghost predicate Valid()
      reads this, slots
    {
      && slots.Valid() && slots.released <= |slots.granted| && ended == slots.granted[..slots.released]
      && running <= Holder()
    }

    constructor ()
      ensures Valid() && fresh(slots) && running == {} && ended == [] && slots.admitted == []
    {
      slots := new Slots();
      running, ended := {}, [];
    }

    /** A call asks for the slot; it is refused, waits, or may begin. */
    method Ask(id: nat) returns (r: Admission)
      requires Valid() && id !in slots.admitted
      modifies slots
      ensures Valid() && slots.aborted == old(slots.aborted)
      ensures r == if old(slots.active) < 1 then Granted
                   else if |old(slots.waiting)| < 2 then Queued else Busy
      ensures r == Granted ==> Holder() == {id}
      ensures r != Granted ==> Holder() == old(Holder())
      ensures slots.waiting == (if r == Queued then old(slots.waiting) + [id] else old(slots.waiting))
    {
      hide Without;
      r := slots.Slot(id);
      assert slots.granted[..slots.released] == ended;
    }

    /** The call that has the slot goes on. */
    method Begin(id: nat)
      requires Valid() && id in Holder()
      modifies this`running
      ensures Valid() && running == {id} && Holder() == old(Holder())
    {
      running := running + {id};
    }

    /** A call that ran ends: the first who waits has the slot next. */
    method End(id: nat)
      requires Valid() && id in running
      modifies this, slots
      ensures Valid() && running == {} && ended == old(ended) + [id] && slots.aborted == old(slots.aborted)
      ensures if old(slots.waiting) == [] then Holder() == {} && slots.waiting == []
              else Holder() == {old(slots.waiting)[0]} && slots.waiting == old(slots.waiting)[1..]
    {
      hide Without;
      running := running - {id};
      ended := ended + [id];
      slots.Release();
      assert slots.granted[..slots.released] == ended;
    }

    /** The client breaks a call off: one that waits leaves; one that has the slot keeps it until it ends. */
    method Break(id: nat)
      requires Valid()
      modifies slots
      ensures Valid() && Holder() == old(Holder()) && slots.waiting == Without(old(slots.waiting), {id})
    {
      hide Without;
      slots.Abort(id);
    }
  }

  /** In every run, what became of the calls that got in: those that ended, the one that has the slot,
      those that wait and those that left are all, and in the order of arrival. */
  lemma EveryCall(s: Service)
    requires s.Valid()
    ensures Without(s.slots.admitted, s.slots.aborted) ==
            s.ended + s.slots.granted[s.slots.released..] + s.slots.waiting
    ensures |s.slots.granted[s.slots.released..]| == s.slots.active <= 1 && |s.slots.waiting| <= 2
    ensures |s.running| <= 1 && (s.slots.waiting != [] ==> s.Holder() != {})
  {
    hide Without;
    var g, n := s.slots.granted, s.slots.released;
    assert g == g[..n] + g[n..];
    if s.running != {} {
      assert s.running == s.Holder();
    }
  }
}
