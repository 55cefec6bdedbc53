/** What an NVRAM text means (wifi-bcm4350/src/firmware.c:72-189): the entries of its lines, line by
    line, and the image handed to the device. No parser state appears here. */
module NvramSpec {
  import opened Basics

  const MAX_NVRAM_SIZE: nat := 64000
  const NUL: Byte := 0
  const NEWLINE: Byte := 10
  const SPACE: Byte := 32
  const HASH: Byte := 35
  const EQUALS: Byte := 61

  const RAW1: seq<Byte> := [82, 65, 87, 49]                          // "RAW1"
  const DEVPATH: seq<Byte> := [100, 101, 118, 112, 97, 116, 104]     // "devpath"
  const PCIE: seq<Byte> := [112, 99, 105, 101, 47]                   // "pcie/"
  const BOARDREV: seq<Byte> := [98, 111, 97, 114, 100, 114, 101, 118] // "boardrev"
  const MACADDR: seq<Byte> := [109, 97, 99, 97, 100, 100, 114]       // "macaddr"
  const DEFAULT_BOARDREV: seq<Byte> := BOARDREV + [61, 48, 120, 102, 102] // "boardrev=0xff"

  predicate IsNvramChar(c: Byte) { c != HASH && 0x20 <= c < 0x7f }
  predicate IsWhitespace(c: Byte) { c == SPACE || c == 13 || c == NEWLINE || c == 9 }
  predicate IsKeyChar(c: Byte) { IsNvramChar(c) && c != SPACE && c != EQUALS }
  predicate EndsLine(c: Byte) { c == NEWLINE || c == NUL }

  predicate HasPrefix(s: seq<Byte>, p: seq<Byte>) { |p| <= |s| && s[..|p|] == p }

  /** Keys whose entries are dropped: RAW1, and macaddr when the platform supplies one. */
  predicate Excluded(key: seq<Byte>, stripMac: bool) {
    HasPrefix(key, RAW1) || (stripMac && HasPrefix(key, MACADDR))
  }

  predicate Terminated(data: seq<Byte>) { data == [] || data[|data| - 1] == NUL }

  // ----- scanning

  function LineEnd(data: seq<Byte>, p: nat): (n: nat)
    requires Terminated(data) && p < |data|
    ensures p <= n < |data| && EndsLine(data[n]) && forall i :: p <= i < n ==> !EndsLine(data[i])
    decreases |data| - p
  {
    if EndsLine(data[p]) then p else LineEnd(data, p + 1)
  }

  function KeyEnd(data: seq<Byte>, p: nat, n: nat): (k: nat)
    requires p <= n < |data| && EndsLine(data[n])
    ensures p <= k <= n && !IsKeyChar(data[k]) && forall i :: p <= i < k ==> IsKeyChar(data[i])
    decreases n - p
  {
    if !IsKeyChar(data[p]) then p else KeyEnd(data, p + 1, n)
  }

  function ValueEnd(data: seq<Byte>, p: nat, n: nat): (v: nat)
    requires p <= n < |data| && EndsLine(data[n])
    ensures p <= v <= n && !IsNvramChar(data[v]) && forall i :: p <= i < v ==> IsNvramChar(data[i])
    decreases n - p
  {
    if !IsNvramChar(data[p]) then p else ValueEnd(data, p + 1, n)
  }

  // ----- the entries of a text

  /** A key followed by '='; `text` is the whole entry, which is kept unless the key is excluded. */
  datatype Item = Item(key: seq<Byte>, text: seq<Byte>, kept: bool)

  /** What stands at position `p` of a line: nothing more of interest, a byte to skip, an excluded
      key that gives up the rest of the line, or an entry that ends at `next`. */
  datatype Head = Done | Skip | Drop(item: Item) | Entry(item: Item, next: nat)

  function LineHead(data: seq<Byte>, p: nat, n: nat, stripMac: bool): (h: Head)
    requires p <= n < |data| && EndsLine(data[n])
    ensures h.Skip? ==> p < n
    ensures h.Entry? ==> p < h.next <= n && !IsNvramChar(data[h.next]) && h.item.text == data[p..h.next] && h.item.kept
    ensures h.Drop? ==> !h.item.kept
    ensures p < n && !IsNvramChar(data[p]) ==> h.Skip? || (h.Done? && data[p] == HASH)
    ensures p == n ==> h.Done?
  {
    if p == n || data[p] == HASH then Done
    else if !IsNvramChar(data[p]) || data[p] == SPACE then Skip
    else KeyHead(data, p, KeyEnd(data, p, n), n, stripMac)
  }

  /** The same when the key `data[p..k]` stands at `p`. */
  function KeyHead(data: seq<Byte>, p: nat, k: nat, n: nat, stripMac: bool): (h: Head)
    requires p <= k <= n < |data| && EndsLine(data[n])
    ensures h.Done? <==> data[k] != EQUALS
    ensures h.Drop? ==> !h.item.kept
    ensures h.Entry? ==> k < h.next <= n && !IsNvramChar(data[h.next]) && h.item.text == data[p..h.next] && h.item.kept
    ensures !h.Skip?
  {
    if data[k] != EQUALS then Done
    else if Excluded(data[p..k], stripMac) then Drop(Item(data[p..k], [], false))
    else
      var v := ValueEnd(data, k + 1, n);
      Entry(Item(data[p..k], data[p..v], true), v)
  }

  /** The items of the line part `data[p..n]`. */
  function LineItems(data: seq<Byte>, p: nat, n: nat, stripMac: bool): (items: seq<Item>)
    requires p <= n < |data| && EndsLine(data[n])
    decreases n - p
  {
    match LineHead(data, p, n, stripMac)
    case Done => []
    case Skip => LineItems(data, p + 1, n, stripMac)
    case Drop(it) => [it]
    case Entry(it, v) => [it] + LineItems(data, v, n, stripMac)
  }

  /** The items from position `p` on: those of each line in turn. */
  function ItemsFrom(data: seq<Byte>, p: nat, stripMac: bool): (items: seq<Item>)
    requires Terminated(data) && p <= |data|
    decreases |data| - p
  {
    if p == |data| then []
    else
      var n := LineEnd(data, p);
      LineItems(data, p, n, stripMac) + ItemsFrom(data, n + 1, stripMac)
  }

  // ----- legality

  predicate Legal(it: Item, stripMac: bool) {
    && (forall c :: c in it.key ==> IsKeyChar(c))
    && (it.kept ==>
          && !Excluded(it.key, stripMac)
          && HasPrefix(it.text, it.key + [EQUALS])
          && forall c :: c in it.text ==> IsNvramChar(c))
  }

  lemma HeadLegal(data: seq<Byte>, p: nat, n: nat, stripMac: bool)
    requires p <= n < |data| && EndsLine(data[n])
    ensures var h := LineHead(data, p, n, stripMac); h.Drop? || h.Entry? ==> Legal(h.item, stripMac)
  {
    if p < n && IsNvramChar(data[p]) && data[p] != SPACE {
      hide Legal, KeyHead;
      KeyHeadLegal(data, p, KeyEnd(data, p, n), n, stripMac);
    }
  }

  lemma KeyHeadLegal(data: seq<Byte>, p: nat, k: nat, n: nat, stripMac: bool)
    requires p <= k <= n < |data| && EndsLine(data[n]) && forall i :: p <= i < k ==> IsKeyChar(data[i])
    ensures var h := KeyHead(data, p, k, n, stripMac); h.Drop? || h.Entry? ==> Legal(h.item, stripMac)
  {
    hide Excluded, ValueEnd;
    if data[k] == EQUALS && !Excluded(data[p..k], stripMac) {
      var v := ValueEnd(data, k + 1, n);
      assert data[p..v] == data[p..k] + [EQUALS] + data[k + 1..v];
    }
  }

  lemma {:induction false} LineItemsLegal(data: seq<Byte>, p: nat, n: nat, stripMac: bool)
    requires p <= n < |data| && EndsLine(data[n])
    ensures forall it :: it in LineItems(data, p, n, stripMac) ==> Legal(it, stripMac)
    decreases n - p
  {
    HeadLegal(data, p, n, stripMac);
    match LineHead(data, p, n, stripMac)
    case Done =>
    case Skip => LineItemsLegal(data, p + 1, n, stripMac);
    case Drop(_) =>
    case Entry(_, v) => LineItemsLegal(data, v, n, stripMac);
  }

  /** Every kept entry is key=value over legal characters, and no excluded key is kept. */
  lemma {:induction false} ItemsLegal(data: seq<Byte>, p: nat, stripMac: bool)
    requires Terminated(data) && p <= |data|
    ensures forall it :: it in ItemsFrom(data, p, stripMac) ==> Legal(it, stripMac)
    decreases |data| - p
  {
    if p < |data| {
      var n := LineEnd(data, p);
      LineItemsLegal(data, p, n, stripMac);
      ItemsLegal(data, n + 1, stripMac);
    }
  }

  // ----- the output bytes

  /** Entries one after the other, each followed by one NUL. */
  function Packed(entries: seq<seq<Byte>>): (s: seq<Byte>)
    decreases |entries|
  {
    if entries == [] then [] else Packed(entries[..|entries| - 1]) + entries[|entries| - 1] + [NUL]
  }

  function Kept(items: seq<Item>): (es: seq<seq<Byte>>)
    decreases |items|
  {
    if items == [] then []
    else
      var last := items[|items| - 1];
      Kept(items[..|items| - 1]) + if last.kept then [last.text] else []
  }

  /** An entry of the output: it holds '=' and legal characters only, and is none of the excluded. */
  predicate Clean(e: seq<Byte>, stripMac: bool) {
    && EQUALS in e && (forall c :: c in e ==> IsNvramChar(c))
    && !HasPrefix(e, RAW1) && (stripMac ==> !HasPrefix(e, MACADDR))
  }

  /** A pattern without '=' cannot reach past the key. */
  lemma PrefixWithinKey(text: seq<Byte>, key: seq<Byte>, pat: seq<Byte>)
    requires HasPrefix(text, key + [EQUALS]) && EQUALS !in pat && HasPrefix(text, pat)
    ensures HasPrefix(key, pat)
  {
    assert forall i :: 0 <= i < |pat| ==> pat[i] == text[i];
    assert text[|key|] == (key + [EQUALS])[|key|] == EQUALS;
    assert |pat| <= |key|;
    assert key == text[..|key|];
  }

  lemma {:induction false} KeptClean(items: seq<Item>, stripMac: bool)
    requires forall it :: it in items ==> Legal(it, stripMac)
    ensures forall e :: e in Kept(items) ==> Clean(e, stripMac)
    decreases |items|
  {
    if items != [] {
      KeptClean(items[..|items| - 1], stripMac);
      var last := items[|items| - 1];
      assert last in items;
      if last.kept {
        assert last.text[|last.key|] == (last.key + [EQUALS])[|last.key|];
        if HasPrefix(last.text, RAW1) { PrefixWithinKey(last.text, last.key, RAW1); }
        if HasPrefix(last.text, MACADDR) { PrefixWithinKey(last.text, last.key, MACADDR); }
      }
    }
  }

  /** Whatever the text, no illegal, incomplete or excluded entry comes out of it. */
  lemma EntriesAreClean(data: seq<Byte>, stripMac: bool)
    requires Terminated(data)
    ensures forall e :: e in Kept(ItemsFrom(data, 0, stripMac)) ==> Clean(e, stripMac)
  {
    ItemsLegal(data, 0, stripMac);
    KeptClean(ItemsFrom(data, 0, stripMac), stripMac);
  }

  lemma PackedNext(es: seq<seq<Byte>>, e: seq<Byte>)
    ensures Packed(es + [e]) == Packed(es) + (e + [NUL])
  {
    assert (es + [e])[..|es|] == es;
  }

  lemma PackedNone(es: seq<seq<Byte>>)
    requires es == []
    ensures Packed(es) == []
  {}

  lemma {:induction false} PackedConcat(a: seq<seq<Byte>>, b: seq<seq<Byte>>)
    ensures Packed(a + b) == Packed(a) + Packed(b)
    decreases |b|
  {
    hide Packed;
    if b == [] {
      PackedNone(b);
      assert a + b == a;
    } else {
      var front, last := b[..|b| - 1], b[|b| - 1];
      assert b == front + [last] && a + b == a + front + [last];
      PackedConcat(a, front);
      PackedNext(front, last);
      PackedNext(a + front, last);
    }
  }

  lemma {:induction false} KeptConcat(a: seq<Item>, b: seq<Item>)
    ensures Kept(a + b) == Kept(a) + Kept(b)
    decreases |b|
  {
    if b == [] {
      assert a + b == a;
    } else {
      KeptConcat(a, b[..|b| - 1]);
      assert (a + b)[..|a + b| - 1] == a + b[..|b| - 1];
    }
  }

  lemma OutConcat(a: seq<Item>, b: seq<Item>)
    ensures Packed(Kept(a + b)) == Packed(Kept(a)) + Packed(Kept(b))
  {
    KeptConcat(a, b);
    PackedConcat(Kept(a), Kept(b));
  }

  lemma OneEntry(it: Item)
    requires it.kept
    ensures Packed(Kept([it])) == it.text + [NUL]
  {
    assert Kept([it]) == [it.text];
    assert Packed([it.text]) == it.text + [NUL];
  }

  lemma OneMore(items: seq<Item>, n: nat)
    requires n < |items|
    ensures Packed(Kept(items[..n + 1])) ==
            Packed(Kept(items[..n])) + if items[n].kept then items[n].text + [NUL] else []
  {
    assert items[..n + 1] == items[..n] + [items[n]];
    OutConcat(items[..n], [items[n]]);
    if items[n].kept { OneEntry(items[n]); } else { assert Kept([items[n]]) == []; }
  }

  lemma {:induction false} LineFits(data: seq<Byte>, p: nat, n: nat, stripMac: bool)
    requires p <= n < |data| && EndsLine(data[n])
    ensures |Packed(Kept(LineItems(data, p, n, stripMac)))| <= n + 1 - p
    // The byte that ends a value never starts an item, so the added NUL takes its place.
    ensures !IsNvramChar(data[p]) ==> |Packed(Kept(LineItems(data, p, n, stripMac)))| <= n - p
    decreases n - p
  {
    match LineHead(data, p, n, stripMac)
    case Done =>
    case Skip => LineFits(data, p + 1, n, stripMac);
    case Drop(it) => assert Kept([it]) == [];
    case Entry(it, v) =>
      LineFits(data, v, n, stripMac);
      hide Packed, Kept;
      OutConcat([it], LineItems(data, v, n, stripMac));
      OneEntry(it);
      assert LineItems(data, p, n, stripMac) == [it] + LineItems(data, v, n, stripMac);
      hide LineItems, LineHead;
  }

  /** The output is never longer than the input it came from. */
  lemma {:induction false} OutputFitsInput(data: seq<Byte>, p: nat, stripMac: bool)
    requires Terminated(data) && p <= |data|
    ensures |Packed(Kept(ItemsFrom(data, p, stripMac)))| <= |data| - p
    decreases |data| - p
  {
    if p < |data| {
      var n := LineEnd(data, p);
      LineFits(data, p, n, stripMac);
      OutputFitsInput(data, n + 1, stripMac);
      OutConcat(LineItems(data, p, n, stripMac), ItemsFrom(data, n + 1, stripMac));
    }
  }

  lemma PrefixFits(items: seq<Item>, n: nat)
    requires n <= |items|
    ensures |Packed(Kept(items[..n]))| <= |Packed(Kept(items))|
  {
    assert items == items[..n] + items[n..];
    OutConcat(items[..n], items[n..]);
  }

  // ----- the size cut-off

  /** Item `n` still fits after the first `n`. */
  predicate Room(items: seq<Item>, n: nat)
    requires n < |items|
  {
    items[n].kept ==> |Packed(Kept(items[..n]))| + |items[n].text| + 1 < MAX_NVRAM_SIZE
  }

  /** How many items are output before the first that does not fit. */
  function Accepted(items: seq<Item>, n: nat): (a: nat)
    requires n <= |items|
    ensures n <= a <= |items|
    ensures a < |items| ==> !Room(items, a)
    ensures forall i :: n <= i < a ==> Room(items, i)
    decreases |items| - n
  {
    if n < |items| && Room(items, n) then Accepted(items, n + 1) else n
  }

  lemma {:induction false} AcceptedFits(items: seq<Item>, n: nat)
    requires n <= |items| && forall i :: 0 <= i < n ==> Room(items, i)
    ensures |Packed(Kept(items[..n]))| < MAX_NVRAM_SIZE
    decreases n
  {
    if n > 0 {
      AcceptedFits(items, n - 1);
      assert Room(items, n - 1);
      OneMore(items, n - 1);
    }
  }

  predicate AnyKey(items: seq<Item>, n: nat, p: seq<Byte>)
    requires n <= |items|
  {
    exists i | 0 <= i < n :: HasPrefix(items[i].key, p)
  }

  // ----- round trip

  /** A well-formed entry: a key that starts no comment, '=', and a value. */
  predicate WellformedPair(key: seq<Byte>, value: seq<Byte>, stripMac: bool) {
    && (forall c :: c in key ==> IsKeyChar(c))
    && (forall c :: c in value ==> IsNvramChar(c))
    && !Excluded(key, stripMac)
  }

  /** A text with one entry on each line, closed by a NUL. */
  function Render(entries: seq<(seq<Byte>, seq<Byte>)>): (data: seq<Byte>)
    ensures Terminated(data) && data != []
  {
    if entries == [] then [NUL]
    else entries[0].0 + [EQUALS] + entries[0].1 + [NEWLINE] + Render(entries[1..])
  }

  function Rendered(entries: seq<(seq<Byte>, seq<Byte>)>): (items: seq<Item>) {
    if entries == [] then []
    else [Item(entries[0].0, entries[0].0 + [EQUALS] + entries[0].1, true)] + Rendered(entries[1..])
  }

  function Texts(entries: seq<(seq<Byte>, seq<Byte>)>): (es: seq<seq<Byte>>) {
    if entries == [] then [] else [entries[0].0 + [EQUALS] + entries[0].1] + Texts(entries[1..])
  }
}
