/** The operations of wifi-bcm4350/src/commonring.c on real pointers: `TxRing` is a ring the driver
    fills, `RxRing` one it drains. The peer's own pointer lives in memory both sides can see. */
module CommonRingDevice {
  import opened Basics
  import opened CommonRing

  class TxRing {
    const depth: nat
    const buf: array<Item>
    var rPtr: nat
    var wPtr: nat
    var fPtr: nat
    var wasFull: bool
    var peerRptr: nat  // the device's read index
    var peerWptr: nat  // the write index the device was told
    ghost var written: int
    ghost var published: nat
    ghost var taken: nat
    ghost var seen: nat
    ghost var log: seq<Item>

    ghost function View(): (s: Ring)
      reads this, buf
    {
      Ring(depth, wPtr, written, published, taken, seen, wasFull, buf[..], log)
    }

    ghost predicate Valid()
      reads this, buf
    {
      && Inv(View())
      && rPtr == Pos(seen, depth) && fPtr == Pos(published, depth)
      && peerRptr == Pos(taken, depth) && peerWptr == Pos(published, depth)
    }

    constructor (depth: nat, fill: Item)
      requires 1 <= depth < 0x1_0000
      ensures Valid() && written == taken == 0 && !wasFull && fresh(buf)
    {
      this.depth := depth;
      buf := new Item[depth](_ => fill);
      rPtr, wPtr, fPtr, peerRptr, peerWptr, wasFull := 0, 0, 0, 0, 0, false;
      written, published, taken, seen, log := 0, 0, 0, 0, [];
    }

    /** cr_update_rptr: copy the device's read index. */
    method UpdateRptr()
      requires Valid()
      modifies this`rPtr, this`seen
      ensures Valid() && View() == Refresh(old(View()))
    {
      rPtr, seen := peerRptr, taken;
    }

    /** The space the driver believes in, from its two pointers. */
    method Space() returns (available: nat)
      requires Valid()
      ensures available == depth - (written - seen)
    {
      AvailableIsCount(written, seen, depth);
      available := if rPtr <= wPtr then depth - wPtr + rPtr else rPtr - wPtr;
    }

    method WriteAvailable() returns (ok: bool)
      requires Valid()
      modifies this`rPtr, this`seen, this`wasFull
      ensures Valid() && (View(), ok) == CommonRing.WriteAvailable(old(View()))
    {
      var retry := true;
      while true
        invariant Valid()
        invariant View() == (if retry then old(View()) else Refresh(old(View())))
        invariant !retry ==> var s := old(View());
          s.depth - (s.written - s.seen) <= 1 || (s.wasFull && s.depth - (s.written - s.seen) <= s.depth / 8)
        decreases retry
      {
        var available := Space();
        if available > 1 {
          if !wasFull { return true; }
          if available > depth / 8 {
            wasFull := false;
            return true;
          }
          if !retry { return false; }
        } else if !retry {
          wasFull := true;
          return false;
        }
        UpdateRptr();
        retry := false;
      }
    }

    /** Reserves room for as many of `items` as it may and fills it; the start slot is returned. */
    method ReserveForWriteMultiple(items: seq<Item>) returns (slot: Option<nat>, alloced: nat)
      requires Valid()
      modifies this, buf
      ensures Valid() && (View(), if slot.None? then None else Some(alloced)) == Reserve(old(View()), items)
      ensures peerRptr == old(peerRptr) && peerWptr == old(peerWptr)
      ensures slot.Some? ==> slot.value == old(wPtr) && slot.value + alloced <= depth
    {
      hide Pos, Inv, Push, Refreshed;
      ReserveKeepsInv(View(), items);
      var available := Obtain();
      ghost var s1 := View();
      alloced := 0;
      if available <= 1 {
        wasFull := true;
        return None, 0;
      }
      ReservedShape(s1);
      alloced := if |items| < available - 1 then |items| else available - 1;
      if alloced + wPtr > depth { alloced := depth - wPtr; }
      slot := Some(wPtr);
      assert alloced == Granted(s1, |items|);
      Fill(items[..alloced]);
    }

    static lemma ReservedShape(s: Ring)
      requires Inv(s)
      ensures s.depth > 0 && |s.slots| == s.depth && s.seen <= s.written < s.seen + s.depth && s.wPtr < s.depth
    {}

    /** The retry: refresh once when space is short. */
    method Obtain() returns (available: nat)
      requires Valid()
      modifies this`rPtr, this`seen
      ensures Valid() && View() == Refreshed(old(View())) && available == depth - (written - seen)
    {
      available := Space();
      if available <= 1 {
        UpdateRptr();
        available := Space();
      }
    }

    /** Writes the reserved slots and moves the write pointer past them. */
    method Fill(items: seq<Item>)
      requires Valid() && written + |items| < seen + depth && wPtr + |items| <= depth
      modifies this`wPtr, this`written, this`log, buf
      ensures Valid() && View() == Push(old(View()), items)
    {
      hide Pos, Inv;
      ghost var s0 := View();
      PushKeepsInv(s0, items);
      ReservedShape(s0);
      WriteSlots(wPtr, items);
      written, log := written + |items|, log + items;
      wPtr := wPtr + |items|;
      if wPtr == depth { wPtr := 0; }
    }

    method WriteSlots(p: nat, items: seq<Item>)
      requires p + |items| <= buf.Length
      modifies buf
      ensures buf[..] == old(buf[..])[..p] + items + old(buf[..])[p + |items|..]
    {
      ghost var before := buf[..];
      for i := 0 to |items|
        invariant buf[..p + i] == before[..p] + items[..i] && buf[p + i..] == before[p + i..]
      {
        buf[p + i] := items[i];
        assert buf[..p + i + 1] == buf[..p + i] + [items[i]];
      }
      assert buf[..] == buf[..p + |items|] + buf[p + |items|..];
    }

    /** A single reservation is a batch of one. */
    method ReserveForWrite(item: Item) returns (slot: Option<nat>)
      requires Valid()
      modifies this, buf
      ensures Valid() && View() == Reserve(old(View()), [item]).0
      ensures slot.None? <==> Free(old(View())) <= 1
      ensures slot.Some? ==> slot.value == old(wPtr) && written == old(written) + 1 && log == old(log) + [item]
    {
      ReserveKeepsInv(View(), [item]);
      var n;
      slot, n := ReserveForWriteMultiple([item]);
      assert slot.Some? ==> n == 1 && [item][..n] == [item];
    }

    method WriteComplete()
      requires Valid()
      modifies this`fPtr, this`published, this`peerWptr
      ensures Valid() && View() == Publish(old(View()))
    {
      fPtr := wPtr;
      peerWptr := wPtr;
      published := written;
    }

    /** Gives back the last `n` reserved items. The ring stays valid if and only if `n` is proper: only
        unpublished items, none behind the start of the ring and, at the start, at least one. */
    method WriteCancel(n: nat)
      requires Valid() && n < 0x1_0000
      modifies this`wPtr, this`written, this`log
      ensures View() == Cancel(old(View()), n)
      ensures Valid() <==> Proper(old(View()), n)
    {
      CancelKeepsInvIff(View(), n);
      ReservedShape(View());
      hide Inv, Pos;
      wPtr := if wPtr == 0 then (depth - n) % 0x1_0000 else (wPtr - n) % 0x1_0000;
      log := if n <= |log| then log[..|log| - n] else [];
      written := written - n;
    }

    /** The device reads on its own: any number of published items, at any time. */
    method DeviceReads(n: nat) returns (items: seq<Item>)
      requires Valid() && taken + n <= published
      modifies this`taken, this`peerRptr
      ensures Valid() && View() == PeerTake(old(View()), n)
      ensures items == old(log)[old(taken)..old(taken) + n]
    {
      hide Inv, Pos, Found;
      ghost var s0 := View();
      PeerReadsInOrder(s0, n);
      ReservedShape(s0);
      FoundLength(s0, n);
      items := [];
      var i := 0;
      while i < n
        invariant 0 <= i <= n && taken == s0.taken + i && peerRptr == Pos(taken, depth)
        invariant items == Found(s0, n)[..i] && buf[..] == s0.slots
        decreases n - i
      {
        PosStep(taken, 1, depth);
        FoundAt(s0, n, i);
        assert buf[peerRptr] == buf[..][peerRptr];
        items := items + [buf[peerRptr]];
        peerRptr := Wrap(peerRptr + 1, depth);
        taken := taken + 1;
        i := i + 1;
      }
    }
  }

  /** A ring the device fills: it has put `put` items, the driver last saw `seen` and has drained
      `drained`. */
  class RxRing {
    const depth: nat
    const buf: array<Item>
    var rPtr: nat
    var wPtr: nat
    var peerWptr: nat
    ghost var drained: nat
    ghost var seen: nat
    ghost var put: nat
    ghost var log: seq<Item>

    ghost predicate Valid()
      reads this, buf
    {
      && 1 <= depth < 0x1_0000 && buf.Length == depth && |log| == put
      && drained <= seen <= put < drained + depth
      && rPtr == Pos(drained, depth) && wPtr == Pos(seen, depth) && peerWptr == Pos(put, depth)
      && forall k {:trigger log[k]} :: drained <= k < put ==> buf[Pos(k, depth)] == log[k]
    }

    constructor (depth: nat, fill: Item)
      requires 1 <= depth < 0x1_0000
      ensures Valid() && put == drained == 0 && fresh(buf)
    {
      this.depth := depth;
      buf := new Item[depth](_ => fill);
      rPtr, wPtr, peerWptr := 0, 0, 0;
      drained, seen, put, log := 0, 0, 0, [];
    }

    /** The longest stretch that can be read without wrapping: the items at `rPtr` are the next of
        the log, and there are none only if the device has put none. */
    method GetReadPtr() returns (n: nat)
      requires Valid()
      modifies this`wPtr, this`seen
      ensures Valid() && seen == put
      ensures n == (if put - drained < depth - rPtr then put - drained else depth - rPtr)
      ensures rPtr + n <= depth && buf[rPtr..rPtr + n] == log[drained..drained + n]
    {
      wPtr, seen := peerWptr, put;
      AvailableIsCount(put, drained, depth);
      n := if wPtr >= rPtr then wPtr - rPtr else depth - rPtr;
      Stretch(n);
    }

    lemma Stretch(n: nat)
      requires Valid() && rPtr + n <= depth && drained + n <= put
      ensures buf[rPtr..rPtr + n] == log[drained..drained + n]
    {
      var here, there := buf[rPtr..rPtr + n], log[drained..drained + n];
      forall i | 0 <= i < n ensures here[i] == there[i] {
        PosStep(drained, i, depth);
        assert buf[Pos(drained + i, depth)] == log[drained + i];
      }
    }

    /** Hands back up to the stretch that was got. */
    method ReadComplete(n: nat)
      requires Valid() && drained + n <= seen && rPtr + n <= depth
      modifies this`rPtr, this`drained
      ensures Valid() && drained == old(drained) + n
    {
      PosStep(drained, n, depth);
      rPtr := rPtr + n;
      if rPtr == depth { rPtr := 0; }
      drained := drained + n;
    }

    /** The device puts another item whenever it finds room behind the driver's read pointer. */
    method DevicePuts(item: Item)
      requires Valid() && put + 1 < drained + depth
      modifies this`peerWptr, this`put, this`log, buf
      ensures Valid() && put == old(put) + 1 && log == old(log) + [item]
    {
      forall k | drained <= k < put ensures Pos(k, depth) != Pos(put, depth) {
        if Pos(k, depth) == Pos(put, depth) { PosUnique(k, put, depth); }
      }
      buf[peerWptr] := item;
      peerWptr := Wrap(peerWptr + 1, depth);
      put, log := put + 1, log + [item];
    }
  }
}
