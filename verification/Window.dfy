/**
 The sender's window: a fixed number of slots addressed by sequence number modulo the window size.
 `Window` is the value of the structure, `CircularQueue` the object that updates it in place.
 */
module Windows {
  import opened Bytes
  import opened Pdus

  /** A `uint8_t *packet` field: no buffer, or the PDU it points to. */
  datatype Packet = Null | Packet(pdu: Pdu)

  datatype Entry = Entry(packet: Packet, sequenceNum: u32, valid: bool)

  /** What `calloc` and the initialising loop leave in a slot. */
  const EMPTY_ENTRY := Entry(Null, 0, false)

  datatype WindowRaw = Window(entries: seq<Entry>, validCount: int)
  type Window = w: WindowRaw | 0 < |w.entries| witness Window([EMPTY_ENTRY], 0)

  function EmptyWindow(size: nat): Window
    requires size > 0
  {
    Window(seq(size, _ => EMPTY_ENTRY), 0)
  }

  function IndexOf(w: Window, k: u32): (i: nat)
    ensures i < |w.entries|
  {
    k % |w.entries|
  }

  /** The slot a sequence number is stored in. */
  function Slot(w: Window, k: u32): Entry {
    w.entries[IndexOf(w, k)]
  }

  /** A window with one slot overwritten. */
  function Put(w: Window, i: nat, e: Entry, count: int): Window
    requires i < |w.entries|
  {
    Window(w.entries[i := e], count)
  }

  predicate IsFull(w: Window) {
    w.validCount >= |w.entries|
  }

  /** Insert and its return code: false stands for -1. */
  function Insert(w: Window, k: u32, pdu: Pdu): (Window, bool) {
    if IsFull(w) || Slot(w, k).valid then (w, false)
    else (Put(w, IndexOf(w, k), Entry(Packet(pdu), k, true), w.validCount + 1), true)
  }

  /** Lookup: the entry is returned when the slot is valid OR its tag differs. */
  function Get(w: Window, k: u32): (index: int)
    ensures -1 <= index < |w.entries|
  {
    if Slot(w, k).valid || Slot(w, k).sequenceNum != k then IndexOf(w, k) else -1
  }

  function Remove(w: Window, k: u32): (Window, bool) {
    if !Slot(w, k).valid || Slot(w, k).sequenceNum != k then (w, false)
    else (Put(w, IndexOf(w, k), Slot(w, k).(packet := Null, valid := false), w.validCount - 1), true)
  }

  /** `for (i = from; i < to; i++) CircularQueue_remove(window, i)`. */
  function RemoveRange(w: Window, from: u32, to: u32): Window
    decreases if from < to then to - from else 0
  {
    if from >= to then w else RemoveRange(Remove(w, from).0, from + 1, to)
  }

  // ---------------------------------------------------------------- refinement of a map

  /** The sequence numbers held in valid slots. */
  function Live(w: Window): set<u32> {
    set i | 0 <= i < |w.entries| && w.entries[i].valid :: w.entries[i].sequenceNum
  }

  /** Every valid slot holds a packet and sits where its tag says. */
  ghost predicate Shaped(w: Window) {
    forall i :: 0 <= i < |w.entries| ==>
         (w.entries[i].valid <==> w.entries[i].packet.Packet?) &&
         (w.entries[i].valid ==> IndexOf(w, w.entries[i].sequenceNum) == i)
  }

  /** ... and the counter counts the valid slots. */
  ghost predicate Coherent(w: Window) {
    Shaped(w) && w.validCount == |Live(w)|
  }

  /** The abstract value: a map from live sequence numbers to PDUs. */
  ghost function Contents(w: Window): map<u32, Pdu>
    requires Shaped(w)
  {
    map k | k in Live(w) :: Slot(w, k).packet.pdu
  }

  lemma LiveSlot(w: Window, k: u32)
    requires Shaped(w)
    ensures k in Live(w) <==> Slot(w, k).valid && Slot(w, k).sequenceNum == k
  {
    var i := IndexOf(w, k);
    if w.entries[i].valid && w.entries[i].sequenceNum == k {
      assert w.entries[i].sequenceNum in Live(w);
    }
  }

  lemma EmptyWindowIsEmptyMap(size: nat)
    requires size > 0
    ensures Coherent(EmptyWindow(size)) && Contents(EmptyWindow(size)) == map[]
  {
    assert Live(EmptyWindow(size)) == {};
  }

  /** Live numbers are pairwise distinct modulo the window size. */
  lemma LiveDistinct(w: Window, a: u32, b: u32)
    requires Shaped(w) && a in Live(w) && b in Live(w) && a != b
    ensures IndexOf(w, a) != IndexOf(w, b)
  {
    LiveSlot(w, a);
    LiveSlot(w, b);
  }

  lemma LiveAfterUpdate(w: Window, i: nat, e: Entry, count: int)
    requires Shaped(w) && i < |w.entries| && (e.valid ==> IndexOf(w, e.sequenceNum) == i)
    ensures var w' := Put(w, i, e, count);
            Live(w') == Live(w) - (if w.entries[i].valid then {w.entries[i].sequenceNum} else {})
                                + (if e.valid then {e.sequenceNum} else {})
  {
    var w' := Put(w, i, e, count);
    var gone := if w.entries[i].valid then {w.entries[i].sequenceNum} else {};
    var added := if e.valid then {e.sequenceNum} else {};
    forall k | k in Live(w)
      ensures k in gone || k in Live(w')
    {
      var j :| 0 <= j < |w.entries| && w.entries[j].valid && w.entries[j].sequenceNum == k;
      assert j == i || (w'.entries[j].valid && w'.entries[j].sequenceNum == k);
    }
    forall k | k in Live(w')
      ensures k in added || k in Live(w) - gone
    {
      var j :| 0 <= j < |w.entries| && w'.entries[j].valid && w'.entries[j].sequenceNum == k;
      if j != i {
        assert w.entries[j].valid && w.entries[j].sequenceNum == k;
      }
    }
    if e.valid {
      assert w'.entries[i].sequenceNum in Live(w');
    }
    assert Live(w') == Live(w) - gone + added;
  }

  /** The map after a slot is overwritten: its old key goes, its new key comes, the rest stays. */
  lemma ContentsAfterUpdate(w: Window, i: nat, e: Entry, count: int)
    requires Shaped(w) && i < |w.entries|
    requires (e.valid <==> e.packet.Packet?) && (e.valid ==> IndexOf(w, e.sequenceNum) == i)
    ensures var kept := if w.entries[i].valid then Contents(w) - {w.entries[i].sequenceNum} else Contents(w);
            Shaped(Put(w, i, e, count)) &&
            Contents(Put(w, i, e, count)) == if e.valid then kept[e.sequenceNum := e.packet.pdu] else kept
  {
    var w' := Put(w, i, e, count);
    LiveAfterUpdate(w, i, e, count);
    forall j | j in Live(w)
      ensures IndexOf(w, j) == i <==> w.entries[i].valid && w.entries[i].sequenceNum == j
      ensures IndexOf(w, j) != i ==> Slot(w', j) == Slot(w, j)
    {
      LiveSlot(w, j);
    }
  }

  /** Insert refuses exactly when the map has `size` keys or one congruent to `k`. */
  lemma {:induction false} InsertAccepts(w: Window, k: u32, pdu: Pdu)
    requires Coherent(w)
    ensures Insert(w, k, pdu).1 <==>
            |Contents(w)| < |w.entries| && forall j :: j in Contents(w) ==> IndexOf(w, j) != IndexOf(w, k)
  {
    assert Contents(w).Keys == Live(w);
    var i := IndexOf(w, k);
    if w.entries[i].valid {
      assert w.entries[i].sequenceNum in Live(w);
    } else {
      forall j | j in Live(w)
        ensures IndexOf(w, j) != i
      {
        LiveSlot(w, j);
      }
    }
  }

  /** An accepted insert is a map update; a refused one changes nothing. */
  lemma {:induction false} InsertRefinesMap(w: Window, k: u32, pdu: Pdu)
    requires Coherent(w)
    ensures Coherent(Insert(w, k, pdu).0)
    ensures Contents(Insert(w, k, pdu).0) == if Insert(w, k, pdu).1 then Contents(w)[k := pdu] else Contents(w)
  {
    if Insert(w, k, pdu).1 {
      var i, e := IndexOf(w, k), Entry(Packet(pdu), k, true);
      LiveSlot(w, k);
      ContentsAfterUpdate(w, i, e, w.validCount + 1);
      assert Live(Insert(w, k, pdu).0) == Live(w) + {k} by {
        LiveAfterUpdate(w, i, e, w.validCount + 1);
      }
    }
  }

  /** Remove succeeds exactly on a live key and deletes just that key. */
  lemma {:induction false} RemoveRefinesMap(w: Window, k: u32)
    requires Coherent(w)
    ensures Coherent(Remove(w, k).0)
    ensures Remove(w, k).1 <==> k in Contents(w)
    ensures Contents(Remove(w, k).0) == Contents(w) - {k}
  {
    LiveSlot(w, k);
    hide IndexOf;
    if k in Live(w) {
      var i, e := IndexOf(w, k), Slot(w, k).(packet := Null, valid := false);
      ContentsAfterUpdate(w, i, e, w.validCount - 1);
      assert Live(Remove(w, k).0) == Live(w) - {k} by {
        LiveAfterUpdate(w, i, e, w.validCount - 1);
      }
    }
  }

  /** A run of removes deletes exactly the keys in the range. */
  lemma {:induction false} RemoveRangeRefinesMap(w: Window, from: u32, to: u32)
    requires Coherent(w)
    ensures Coherent(RemoveRange(w, from, to))
    ensures var left := Contents(RemoveRange(w, from, to));
            (forall k :: k in left <==> k in Contents(w) && !(from <= k < to)) &&
            (forall k :: k in left ==> left[k] == Contents(w)[k])
    decreases if from < to then to - from else 0
  {
    hide Remove, Coherent, Contents;
    if from < to {
      RemoveRefinesMap(w, from);
      RemoveRangeRefinesMap(Remove(w, from).0, from + 1, to);
    }
  }

  /** What lookup finds, in terms of the map: the key itself, a congruent key, a stale slot, or nothing. */
  lemma {:induction false} GetAgainstMap(w: Window, k: u32)
    requires Coherent(w)
    ensures k in Contents(w) ==> Get(w, k) >= 0 && w.entries[Get(w, k)].packet == Packet(Contents(w)[k])
    ensures k !in Contents(w) && Get(w, k) >= 0 ==>
              var e := w.entries[Get(w, k)];
              e.sequenceNum != k &&
              if e.valid
              then e.sequenceNum in Contents(w) && e.packet == Packet(Contents(w)[e.sequenceNum])
              else e.packet == Null
    ensures Get(w, k) < 0 <==> !Slot(w, k).valid && Slot(w, k).sequenceNum == k
  {
    LiveSlot(w, k);
    if Slot(w, k).valid {
      LiveSlot(w, Slot(w, k).sequenceNum);
    }
  }

  // ---------------------------------------------------------------- the object

  class CircularQueue {
    var entries: array<Entry>
    var windowSize: nat
    var validCount: int

    ghost predicate Valid()
      reads this
    {
      0 < windowSize == entries.Length
    }

    /** The value of the queue. */
    ghost function Value(): Window
      reads this, entries
      requires Valid()
    {
      Window(entries[..], validCount)
    }

    constructor (size: nat)
      requires size > 0
      ensures Valid() && fresh(entries)
      ensures Value() == EmptyWindow(size)
      ensures Coherent(Value()) && Contents(Value()) == map[]
    {
      windowSize := size;
      validCount := 0;
      entries := new Entry[size](_ => EMPTY_ENTRY);
      new;
      for i := 0 to size
        invariant Valid() && fresh(entries) && windowSize == size && validCount == 0
        invariant forall j :: 0 <= j < size ==> entries[j] == EMPTY_ENTRY
      {
        entries[i] := entries[i].(valid := false, packet := Null);
      }
      assert entries[..] == EmptyWindow(size).entries;
      EmptyWindowIsEmptyMap(size);
    }

    method Full() returns (full: bool)
      requires Valid()
      ensures full <==> IsFull(Value())
    {
      full := validCount >= windowSize;
    }

    method Empty() returns (empty: bool)
      requires Valid()
      ensures Coherent(Value()) ==> (empty <==> Contents(Value()) == map[])
    {
      empty := validCount == 0;
      assert Coherent(Value()) ==> (empty <==> Live(Value()) == {});
      assert Coherent(Value()) ==> Contents(Value()).Keys == Live(Value());
    }

    method InsertEntry(k: u32, pdu: Pdu) returns (ok: bool)
      requires Valid()
      modifies this`validCount, entries
      ensures Valid()
      ensures (Value(), ok) == Insert(old(Value()), k, pdu)
    {
      if validCount >= windowSize {
        return false;
      }
      var index := k % windowSize;
      if entries[index].valid {
        return false;
      }
      entries[index] := entries[index].(packet := Packet(pdu));
      entries[index] := entries[index].(sequenceNum := k);
      entries[index] := entries[index].(valid := true);
      validCount := validCount + 1;
      assert entries[..] == old(entries[..])[index := Entry(Packet(pdu), k, true)];
      ok := true;
    }

    /** The index of the entry a pointer to which is the result, or -1 for NULL. */
    method GetEntry(k: u32) returns (index: int)
      requires Valid()
      ensures index == Get(Value(), k)
    {
      index := k % windowSize;
      if entries[index].valid || entries[index].sequenceNum != k {
        return;
      }
      index := -1;
    }

    method RemoveEntry(k: u32) returns (ok: bool)
      requires Valid()
      modifies this`validCount, entries
      ensures Valid()
      ensures (Value(), ok) == Remove(old(Value()), k)
    {
      var index := k % windowSize;
      if !entries[index].valid || entries[index].sequenceNum != k {
        return false;
      }
      entries[index] := entries[index].(packet := Null);
      entries[index] := entries[index].(valid := false);
      validCount := validCount - 1;
      assert entries[..] == old(entries[..])[index := Slot(old(Value()), k).(packet := Null, valid := false)];
      ok := true;
    }

    /** Afterwards the map is empty and the size is what it was. */
    method Clear()
      requires Valid() && Coherent(Value())
      modifies this`validCount, entries
      ensures Valid() && Coherent(Value())
      ensures Contents(Value()) == map[]
    {
      for i := 0 to windowSize
        invariant Valid()
        invariant forall j :: 0 <= j < i ==> !entries[j].valid && entries[j].packet.Null?
        invariant forall j :: i <= j < windowSize ==> entries[j] == old(entries[j])
      {
        if entries[i].valid {
          entries[i] := entries[i].(packet := Null);
          entries[i] := entries[i].(valid := false);
        }
      }
      validCount := 0;
      assert Live(Value()) == {};
    }
  }
}
