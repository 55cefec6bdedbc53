/** The five-state character machine of wifi-bcm4350/src/firmware.c:87-230 and its driver loop
    (411-415), proved to output exactly what NvramSpec says the text means. */
module NvramParsers {
  import opened Basics
  import opened NvramSpec

  datatype State = Idle | Key | Value | Comment | End

  /** Four transitions consume no input; each of them lowers this rank. */
  function Rank(s: State): nat {
    match s
    case Value => 3
    case Idle => 2
    case Key => 1
    case Comment => 0
    case End => 0
  }

  /** What brcmf_init_nvram_parser allocates: room for the text, a default board revision, a MAC
      address, and a NUL, the padding and the length token. */
  function Capacity(dataLen: nat): nat {
    (if dataLen > MAX_NVRAM_SIZE then MAX_NVRAM_SIZE else dataLen) + (13 + 1) + (25 + 1) + (1 + 3 + 4)
  }

  // ----- how the machine's moves consume items

  lemma {:induction false} SameLine(data: seq<Byte>, p: nat, q: nat)
    requires Terminated(data) && p <= q < |data| && forall i :: p <= i < q ==> !EndsLine(data[i])
    ensures LineEnd(data, p) == LineEnd(data, q)
    decreases q - p
  {
    if p < q { SameLine(data, p + 1, q); }
  }

  lemma SkipByte(data: seq<Byte>, p: nat, stripMac: bool)
    requires Terminated(data) && p < |data|
    requires EndsLine(data[p]) || (data[p] != HASH && (!IsNvramChar(data[p]) || data[p] == SPACE))
    ensures ItemsFrom(data, p, stripMac) == ItemsFrom(data, p + 1, stripMac)
  {
    if EndsLine(data[p]) {
      assert LineItems(data, p, p, stripMac) == [];
    } else {
      SameLine(data, p, p + 1);
      assert LineHead(data, p, LineEnd(data, p), stripMac) == Skip;
    }
  }

  lemma SkipComment(data: seq<Byte>, p: nat, stripMac: bool)
    requires Terminated(data) && p < |data| && (data[p] == HASH || data[p] == NEWLINE)
    ensures ItemsFrom(data, p, stripMac) == ItemsFrom(data, LineEnd(data, p) + 1, stripMac)
  {
    assert LineHead(data, p, LineEnd(data, p), stripMac) == Done;
  }

  /** A run of key characters from `p` to the first other byte `k`. */
  ghost predicate KeyRun(data: seq<Byte>, p: nat, k: nat) {
    p <= k < |data| && IsKeyChar(data[p]) && forall i :: p <= i < k ==> IsKeyChar(data[i])
  }

  lemma BadKey(data: seq<Byte>, p: nat, k: nat, stripMac: bool)
    requires Terminated(data) && KeyRun(data, p, k) && !IsKeyChar(data[k]) && data[k] != EQUALS
    ensures ItemsFrom(data, p, stripMac) == ItemsFrom(data, LineEnd(data, k) + 1, stripMac)
  {
    SameLine(data, p, k);
    assert KeyEnd(data, p, LineEnd(data, p)) == k;
    assert LineHead(data, p, LineEnd(data, p), stripMac) == Done;
  }

  /** The same for a key that ends in '='; an empty key is one. */
  ghost predicate AtKey(data: seq<Byte>, p: nat, k: nat) {
    && p <= k < |data| && data[k] == EQUALS
    && forall i :: p <= i < k ==> IsKeyChar(data[i])
  }

  lemma DroppedKey(data: seq<Byte>, p: nat, k: nat, stripMac: bool)
    requires Terminated(data) && AtKey(data, p, k) && Excluded(data[p..k], stripMac)
    ensures k + 1 < |data|
    ensures ItemsFrom(data, p, stripMac) ==
            [Item(data[p..k], [], false)] + ItemsFrom(data, LineEnd(data, k + 1) + 1, stripMac)
  {
    SameLine(data, p, k + 1);
    var n := LineEnd(data, p);
    assert KeyEnd(data, p, n) == k;
    assert LineHead(data, p, n, stripMac) == Drop(Item(data[p..k], [], false));
  }

  lemma EntryHead(data: seq<Byte>, p: nat, k: nat, v: nat, stripMac: bool)
    requires Terminated(data) && AtKey(data, p, k) && !Excluded(data[p..k], stripMac)
    requires k < v < |data| && !IsNvramChar(data[v]) && forall i :: k < i < v ==> IsNvramChar(data[i])
    ensures v <= LineEnd(data, p)
    ensures LineHead(data, p, LineEnd(data, p), stripMac) == Entry(Item(data[p..k], data[p..v], true), v)
  {
    SameLine(data, p, v);
    var n := LineEnd(data, p);
    hide LineEnd, Excluded;
    assert KeyEnd(data, p, n) == k;
    assert ValueEnd(data, k + 1, n) == v;
  }

  lemma CompletedEntry(data: seq<Byte>, p: nat, k: nat, v: nat, stripMac: bool)
    requires Terminated(data) && AtKey(data, p, k) && !Excluded(data[p..k], stripMac)
    requires k < v < |data| && !IsNvramChar(data[v]) && forall i :: k < i < v ==> IsNvramChar(data[i])
    ensures ItemsFrom(data, p, stripMac) == [Item(data[p..k], data[p..v], true)] + ItemsFrom(data, v, stripMac)
  {
    SameLine(data, p, v);
    var n := LineEnd(data, p);
    var it := Item(data[p..k], data[p..v], true);
    EntryHead(data, p, k, v, stripMac);
    assert LineItems(data, p, n, stripMac) == [it] + LineItems(data, v, n, stripMac) by { hide LineHead, LineEnd; }
    PrependItem(data, p, v, n, it, stripMac);
  }

  lemma PrependItem(data: seq<Byte>, p: nat, v: nat, n: nat, it: Item, stripMac: bool)
    requires Terminated(data) && p < v <= n < |data| && n == LineEnd(data, p) == LineEnd(data, v)
    requires LineItems(data, p, n, stripMac) == [it] + LineItems(data, v, n, stripMac)
    ensures ItemsFrom(data, p, stripMac) == [it] + ItemsFrom(data, v, stripMac)
  {
    hide *;
    UnfoldItems(data, p, stripMac);
    UnfoldItems(data, v, stripMac);
    Reassociate(it, LineItems(data, v, n, stripMac), ItemsFrom(data, n + 1, stripMac));
  }

  lemma UnfoldItems(data: seq<Byte>, p: nat, stripMac: bool)
    requires Terminated(data) && p < |data|
    ensures var n := LineEnd(data, p);
      ItemsFrom(data, p, stripMac) == LineItems(data, p, n, stripMac) + ItemsFrom(data, n + 1, stripMac)
  {}

  lemma Reassociate(it: Item, a: seq<Item>, b: seq<Item>)
    ensures [it] + a + b == [it] + (a + b)
  {}

  /** The items of a rendered text, behind any text, are its entries. */
  lemma {:induction false} RenderItems(pre: seq<Byte>, entries: seq<(seq<Byte>, seq<Byte>)>, stripMac: bool)
    requires forall e :: e in entries ==> WellformedPair(e.0, e.1, stripMac)
    ensures Terminated(pre + Render(entries))
    ensures ItemsFrom(pre + Render(entries), |pre|, stripMac) == Rendered(entries)
    decreases |entries|
  {
    var data, p := pre + Render(entries), |pre|;
    if entries == [] {
      SkipByte(data, p, stripMac);
    } else {
      var (key, value) := entries[0];
      var line := key + [EQUALS] + value + [NEWLINE];
      assert data == pre + line + Render(entries[1..]);
      RenderedLine(pre, key, value, Render(entries[1..]), stripMac);
      RenderItems(pre + line, entries[1..], stripMac);
    }
  }

  lemma {:induction false} RenderedKept(entries: seq<(seq<Byte>, seq<Byte>)>)
    ensures Kept(Rendered(entries)) == Texts(entries)
    decreases |entries|
  {
    if entries != [] {
      RenderedKept(entries[1..]);
      var it := Rendered(entries)[0];
      KeptConcat([it], Rendered(entries[1..]));
      assert Kept([it]) == [it.text];
    }
  }

  /** Parsing a rendered list of entries, behind any text, gives back exactly these entries. */
  lemma RenderRoundTrip(pre: seq<Byte>, entries: seq<(seq<Byte>, seq<Byte>)>, stripMac: bool)
    requires forall e :: e in entries ==> WellformedPair(e.0, e.1, stripMac)
    ensures Terminated(pre + Render(entries))
    ensures Kept(ItemsFrom(pre + Render(entries), |pre|, stripMac)) == Texts(entries)
  {
    RenderItems(pre, entries, stripMac);
    RenderedKept(entries);
  }

  lemma RenderedLine(pre: seq<Byte>, key: seq<Byte>, value: seq<Byte>, rest: seq<Byte>, stripMac: bool)
    requires WellformedPair(key, value, stripMac) && Terminated(rest) && rest != []
    ensures var line := key + [EQUALS] + value + [NEWLINE]; var data := pre + line + rest;
      && Terminated(data)
      && ItemsFrom(data, |pre|, stripMac) ==
         [Item(key, key + [EQUALS] + value, true)] + ItemsFrom(data, |pre + line|, stripMac)
  {
    var line := key + [EQUALS] + value + [NEWLINE];
    var data, p := pre + line + rest, |pre|;
    hide ItemsFrom;
    var k, v := p + |key|, p + |key| + 1 + |value|;
    assert forall i :: p <= i < k ==> data[i] == key[i - p];
    assert forall i :: k < i < v ==> data[i] == value[i - k - 1];
    assert data[k] == EQUALS && data[v] == NEWLINE;
    assert data[p..k] == key && data[p..v] == key + [EQUALS] + value;
    CompletedEntry(data, p, k, v, stripMac);
    SkipByte(data, v, stripMac);
  }

  /** Comparing at the start of the entry sees no further than the key: the '=' stops it. */
  lemma KeyPrefix(data: seq<Byte>, p: nat, k: nat, pat: seq<Byte>)
    requires AtKey(data, p, k) && EQUALS !in pat
    ensures HasPrefix(data[p..], pat) <==> HasPrefix(data[p..k], pat)
  {
    if HasPrefix(data[p..], pat) {
      assert forall i :: 0 <= i < |pat| ==> pat[i] == data[p..][i];
      if |pat| > k - p { assert false; }
      assert data[p..k][..|pat|] == data[p..][..|pat|];
    }
    if HasPrefix(data[p..k], pat) {
      assert data[p..][..|pat|] == data[p..k][..|pat|];
    }
  }

  lemma AcceptNext(items: seq<Item>, d: nat)
    requires d < |items| && Room(items, d)
    ensures Accepted(items, d) == Accepted(items, d + 1)
  {}

  lemma AnyKeyNext(items: seq<Item>, d: nat, p: seq<Byte>)
    requires d < |items|
    ensures AnyKey(items, d + 1, p) <==> AnyKey(items, d, p) || HasPrefix(items[d].key, p)
  {
    if AnyKey(items, d, p) {
      var i :| 0 <= i < d && HasPrefix(items[i].key, p);
    }
  }

  // ----- the machine

  class NvramParser {
    const data: seq<Byte>
    const stripMac: bool
    var state: State
    var nvram: array<Byte>
    var nvramLen: nat
    var pos: nat
    var entry: nat
    var multiDevV1: bool
    var multiDevV2: bool
    var boardrevFound: bool
    ghost var done: nat    // items behind the machine
    ghost var keyEnd: nat  // where the current entry's '=' stands

    ghost function Items(): (items: seq<Item>)
      requires Terminated(data)
    {
      ItemsFrom(data, 0, stripMac)
    }

    /** How many keys have been seen up to their '='. */
    ghost function Seen(): nat
      reads this`state, this`done
    {
      if state == Value || state == End then done + 1 else done
    }

    ghost predicate Flags(n: nat)
      requires Terminated(data) && n <= |Items()|
      reads this`multiDevV1, this`multiDevV2, this`boardrevFound
    {
      && multiDevV1 == AnyKey(Items(), n, DEVPATH)
      && multiDevV2 == AnyKey(Items(), n, PCIE)
      && boardrevFound == AnyKey(Items(), n, BOARDREV)
    }

    ghost predicate Inv()
      reads this, nvram
    {
      Core() && Flags(Seen())
    }

    ghost predicate Core()
      reads this`state, this`nvram, this`nvramLen, this`pos, this`entry, this`done, this`keyEnd, nvram
    {
      && Terminated(data)
      && nvram.Length == Capacity(|data|)
      && done <= Seen() <= |Items()| && nvramLen <= nvram.Length && pos <= |data|
      && nvram[..nvramLen] == Packed(Kept(Items()[..done]))
      && Accepted(Items(), 0) == Accepted(Items(), done)
      && (forall i :: 0 <= i < done ==> Room(Items(), i))
      && match state {
        case Idle => Items()[done..] == ItemsFrom(data, pos, stripMac)
        case Key =>
          && entry <= pos < |data| && (entry == pos || KeyRun(data, entry, pos))
          && IsNvramChar(data[entry]) && data[entry] != SPACE
          && Items()[done..] == ItemsFrom(data, entry, stripMac)
        case Value =>
          && AtKey(data, entry, keyEnd) && keyEnd < pos < |data|
          && !Excluded(data[entry..keyEnd], stripMac)
          && (forall i :: keyEnd < i < pos ==> IsNvramChar(data[i]))
          && Items()[done].key == data[entry..keyEnd]
          && Items()[done..] == ItemsFrom(data, entry, stripMac)
        case Comment => pos < |data| && Items()[done..] == ItemsFrom(data, LineEnd(data, pos) + 1, stripMac)
        case End => done < |Items()| && !Room(Items(), done)
      }
    }

    constructor (data: seq<Byte>, stripMac: bool)
      requires Terminated(data)
      ensures Inv() && state == Idle && pos == 0 && this.data == data && this.stripMac == stripMac && fresh(nvram)
    {
      this.data, this.stripMac := data, stripMac;
      state, nvramLen, pos, entry := Idle, 0, 0, 0;
      nvram := new Byte[Capacity(|data|)](_ => 0);
      multiDevV1, multiDevV2, boardrevFound := false, false, false;
      done, keyEnd := 0, 0;
      new;
      assert Items()[0..] == Items() && Items()[..0] == [];
    }

    method HandleIdle()
      requires Inv() && state == Idle && pos < |data|
      modifies this
      ensures Inv() && nvram == old(nvram)
      ensures pos > old(pos) || (pos == old(pos) && Rank(state) < Rank(Idle))
    {
      hide ItemsFrom, Packed, Kept, LineEnd, Accepted, AnyKey, NvramParser.Flags;
      var c := data[pos];
      if c == NEWLINE {
        SkipComment(data, pos, stripMac);
        state := Comment;
      } else if IsWhitespace(c) || c == NUL {
        SkipByte(data, pos, stripMac);
        pos := pos + 1;
      } else if c == HASH {
        SkipComment(data, pos, stripMac);
        state := Comment;
      } else if IsNvramChar(c) {
        entry := pos;
        state := Key;
      } else {
        SkipByte(data, pos, stripMac);
        pos := pos + 1;
      }
    }

    method HandleKey()
      requires Inv() && state == Key && pos < |data|
      modifies this
      ensures Inv() && nvram == old(nvram)
      ensures pos > old(pos) || (pos == old(pos) && Rank(state) < Rank(Key))
    {
      hide ItemsFrom, Packed, Kept, LineEnd, Accepted, AnyKey, NvramParser.Flags;
      var c := data[pos];
      if c == EQUALS {
        TakeKey();
      } else if !IsNvramChar(c) || c == SPACE {
        BadKey(data, entry, pos, stripMac);
        state := Comment;
      } else {
        pos := pos + 1;
      }
    }

    /** The '=' that completes a key: it records which well-known keys the text has and decides
        between VALUE and skipping the line. */
    method TakeKey()
      requires Inv() && state == Key && data[pos] == EQUALS
      modifies this
      ensures Inv() && nvram == old(nvram)
      ensures pos == old(pos) + 1 && (state == Value || state == Comment)
    {
      hide ItemsFrom, Packed, Kept, LineEnd, AnyKey, HasPrefix, NvramParser.Core;
      KeyReached();
      NextKey(entry, pos);
      MarkKey(pos);
      KeyPrefix(data, entry, pos, RAW1);
      KeyPrefix(data, entry, pos, MACADDR);
      if HasPrefix(data[entry..], RAW1) || (stripMac && HasPrefix(data[entry..], MACADDR)) {
        DropKey();
      } else {
        StartValue();
      }
    }

    method DropKey()
      requires Core() && state == Key && data[pos] == EQUALS && Excluded(data[entry..pos], stripMac)
      requires done < |Items()| && Flags(done + 1)
      modifies this`pos, this`done, this`state
      ensures Inv() && pos == old(pos) + 1 && state == Comment
    {
      hide ItemsFrom, Packed, Kept, LineEnd, Accepted, AnyKey, HasPrefix, Excluded, NvramParser.Flags;
      ghost var items, d := Items(), done;
      DroppedKey(data, entry, pos, stripMac);
      OneMore(items, d);
      assert items[d] == items[d..][0];
      assert items[d + 1..] == items[d..][1..];
      AcceptNext(items, d);
      pos, done, state := pos + 1, d + 1, Comment;
    }

    method StartValue()
      requires Core() && state == Key && data[pos] == EQUALS && !Excluded(data[entry..pos], stripMac)
      requires done < |Items()| && Items()[done].key == data[entry..pos] && Flags(done + 1) && pos + 1 < |data|
      modifies this`pos, this`keyEnd, this`state
      ensures Inv() && pos == old(pos) + 1 && state == Value
    {
      hide ItemsFrom, Packed, Kept, LineEnd, AnyKey, HasPrefix, Excluded, NvramParser.Flags, Accepted;
      pos, keyEnd, state := pos + 1, pos, Value;
    }

    lemma KeyReached()
      requires Core() && state == Key && data[pos] == EQUALS
      ensures Terminated(data) && AtKey(data, entry, pos) && done <= |Items()|
      ensures Items()[done..] == ItemsFrom(data, entry, stripMac)
    {}

    method MarkKey(ghost k: nat)
      requires Terminated(data) && AtKey(data, entry, k) && done < |Items()| && Items()[done].key == data[entry..k]
      requires Flags(done)
      modifies this`multiDevV1, this`multiDevV2, this`boardrevFound
      ensures Flags(done + 1)
    {
      hide ItemsFrom, AnyKey, HasPrefix;
      KeyPrefix(data, entry, k, DEVPATH);
      KeyPrefix(data, entry, k, PCIE);
      KeyPrefix(data, entry, k, BOARDREV);
      AnyKeyNext(Items(), done, DEVPATH);
      AnyKeyNext(Items(), done, PCIE);
      AnyKeyNext(Items(), done, BOARDREV);
      if HasPrefix(data[entry..], DEVPATH) { multiDevV1 := true; }
      if HasPrefix(data[entry..], PCIE) { multiDevV2 := true; }
      if HasPrefix(data[entry..], BOARDREV) { boardrevFound := true; }
    }

    lemma NextKey(p: nat, k: nat)
      requires Terminated(data) && AtKey(data, p, k) && done <= |Items()|
      requires Items()[done..] == ItemsFrom(data, p, stripMac)
      ensures k + 1 < |data| && done < |Items()| && Items()[done].key == data[p..k]
      ensures Items()[done].kept <==> !Excluded(data[p..k], stripMac)
    {
      if Excluded(data[p..k], stripMac) {
        DroppedKey(data, p, k, stripMac);
      } else {
        SameLine(data, p, k + 1);
        var v := ValueEnd(data, k + 1, LineEnd(data, k + 1));
        CompletedEntry(data, p, k, v, stripMac);
      }
      assert Items()[done] == Items()[done..][0];
    }

    method CopyEntry(cplen: nat)
      requires entry + cplen <= |data| && nvramLen + cplen < nvram.Length
      modifies this`nvramLen, nvram
      ensures nvramLen == old(nvramLen) + cplen + 1
      ensures nvram[..nvramLen] == old(nvram[..nvramLen]) + data[entry..entry + cplen] + [NUL]
    {
      ghost var before := nvram[..nvramLen];
      for i := 0 to cplen
        invariant nvramLen == old(nvramLen)
        invariant nvram[..nvramLen + i] == before + data[entry..entry + i]
      {
        nvram[nvramLen + i] := data[entry + i];
        assert nvram[..nvramLen + i + 1] == nvram[..nvramLen + i] + [data[entry + i]];
      }
      nvram[nvramLen + cplen] := NUL;
      assert nvram[..nvramLen + cplen + 1] == nvram[..nvramLen + cplen] + [NUL];
      nvramLen := nvramLen + cplen + 1;
    }

    method HandleValue()
      requires Inv() && state == Value && pos < |data|
      modifies this, nvram
      ensures Inv() && nvram == old(nvram)
      ensures pos > old(pos) || (pos == old(pos) && Rank(state) < Rank(Value))
    {
      hide ItemsFrom, Packed, Kept, LineEnd, Accepted, AnyKey, NvramParser.Flags;
      if IsNvramChar(data[pos]) {
        pos := pos + 1;
      } else {
        FinishEntry();
      }
    }

    /** The entry is complete: copy it out, or stop for good when it does not fit. */
    method FinishEntry()
      requires Inv() && state == Value && !IsNvramChar(data[pos])
      modifies this, nvram
      ensures Inv() && nvram == old(nvram) && pos == old(pos) && (state == Idle || state == End)
    {
      hide ItemsFrom, Packed, Kept, LineEnd, Accepted, AnyKey, Excluded, NvramParser.Flags;
      EntryReady();
      var cplen := pos - entry;
      if nvramLen + cplen + 1 >= MAX_NVRAM_SIZE {
        state := End;
      } else {
        AcceptNext(Items(), done);
        CopyEntry(cplen);
        done, state := done + 1, Idle;
      }
    }

    lemma EntryReady()
      requires Inv() && state == Value && !IsNvramChar(data[pos])
      ensures Items()[done] == Item(data[entry..keyEnd], data[entry..pos], true)
      ensures Items()[done + 1..] == ItemsFrom(data, pos, stripMac)
      ensures Room(Items(), done) <==> nvramLen + (pos - entry) + 1 < MAX_NVRAM_SIZE
      ensures nvramLen + (pos - entry) < |data|
      ensures Packed(Kept(Items()[..done + 1])) == Packed(Kept(Items()[..done])) + data[entry..pos] + [NUL]
    {
      hide ItemsFrom, Packed, Kept, LineEnd, Accepted, AnyKey, NvramParser.Flags;
      var items := Items();
      CompletedEntry(data, entry, keyEnd, pos, stripMac);
      assert items[done] == items[done..][0];
      assert items[done + 1..] == items[done..][1..];
      OneMore(items, done);
      OutputFitsInput(data, 0, stripMac);
      PrefixFits(items, done + 1);
    }

    /** Finds the newline or, failing that, the NUL that ends the comment. */
    method HandleComment()
      requires Inv() && state == Comment && pos < |data|
      modifies this
      ensures Inv() && nvram == old(nvram) && pos > old(pos)
    {
      var eoc := pos;
      while !EndsLine(data[eoc])
        invariant pos <= eoc < |data| && LineEnd(data, pos) == LineEnd(data, eoc)
        decreases |data| - eoc
      {
        eoc := eoc + 1;
      }
      pos := eoc + 1;
      state := Idle;
    }

    /** One call through the handler table. */
    method Step()
      requires Inv() && pos < |data| && state != End
      modifies this, nvram
      ensures Inv() && nvram == old(nvram)
      ensures pos > old(pos) || (pos == old(pos) && Rank(state) < old(Rank(state)))
    {
      hide NvramParser.Inv;
      match state
      case Idle => HandleIdle();
      case Key => HandleKey();
      case Value => HandleValue();
      case Comment => HandleComment();
    }

    /** Whatever the text, the machine stops, and its output is the text's entries, in order and
        up to the size cut-off. */
    method Parse()
      requires Inv() && state == Idle && pos == 0
      modifies this, nvram
      ensures Terminated(data) && nvram == old(nvram) && nvram.Length == Capacity(|data|)
      ensures nvramLen <= |data| && nvramLen < MAX_NVRAM_SIZE && nvramLen <= nvram.Length
      ensures nvram[..nvramLen] == Packed(Kept(Items()[..Accepted(Items(), 0)]))
      ensures var seen := if Accepted(Items(), 0) < |Items()| then Accepted(Items(), 0) + 1 else |Items()|;
        && multiDevV1 == AnyKey(Items(), seen, DEVPATH)
        && multiDevV2 == AnyKey(Items(), seen, PCIE)
        && boardrevFound == AnyKey(Items(), seen, BOARDREV)
    {
      hide ItemsFrom, Packed, Kept, LineEnd, AnyKey, Accepted, NvramParser.Inv;
      while pos < |data| && state != End
        invariant Inv() && nvram == old(nvram)
        decreases |data| - pos, Rank(state)
      {
        Step();
      }
      Finished();
    }

    /** When the loop stops, every item that fits is behind the machine. */
    lemma Finished()
      requires Inv() && (pos >= |data| || state == End)
      ensures Terminated(data) && nvram.Length == Capacity(|data|) && done == Accepted(Items(), 0)
      ensures Flags(if done < |Items()| then done + 1 else |Items()|)
      ensures nvramLen <= |data| && nvramLen < MAX_NVRAM_SIZE && nvramLen <= nvram.Length
      ensures nvram[..nvramLen] == Packed(Kept(Items()[..done]))
    {
      hide LineItems, Packed, Kept, AnyKey, LineEnd, Excluded, NvramParser.Flags;
      if state != End { assert ItemsFrom(data, |data|, stripMac) == []; }
      OutputFitsInput(data, 0, stripMac);
      PrefixFits(Items(), done);
      AcceptedFits(Items(), done);
    }
  }
}
