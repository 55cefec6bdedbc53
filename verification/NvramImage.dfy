/** The whole of brcmf_fw_nvram_strip (wifi-bcm4350/src/firmware.c:368-449): parse, strip for one
    device, append defaults, pad, and close with the length token. */
module NvramImage {
  import opened Basics
  import opened NvramSpec
  import opened NvramParsers
  import opened NvramMulti

  // ----- the image as a function of its entries

  function RoundUp4(n: nat): (r: nat)
    ensures n <= r < n + 4 && r % 4 == 0
  {
    (n + 3) / 4 * 4
  }

  /** (~words << 16) | (words & 0xffff) in 32-bit arithmetic. */
  function Token(words: nat): (t: nat)
    ensures t < 0x1_0000_0000
  {
    (0xffff_ffff - words % 0x1_0000_0000) * 0x1_0000 % 0x1_0000_0000 + words % 0x1_0000
  }

  function Le32(t: nat): (s: seq<Byte>)
    requires t < 0x1_0000_0000
    ensures |s| == 4
  {
    [t % 0x100, t / 0x100 % 0x100, t / 0x100 / 0x100 % 0x100, t / 0x100 / 0x100 / 0x100]
  }

  function Zeros(n: nat): (s: seq<Byte>)
    ensures |s| == n && forall i :: 0 <= i < n ==> s[i] == NUL
  {
    seq(n, _ => NUL)
  }

  /** The size of an image: a NUL at least, padding to words, and the token. */
  function ImageSize(n: nat): nat { RoundUp4(n + 1) + 4 }

  function Image(body: seq<Byte>): (s: seq<Byte>)
    ensures |s| == ImageSize(|body|)
  {
    var n := RoundUp4(|body| + 1);
    body + Zeros(n - |body|) + Le32(Token(n / 4))
  }

  function HexDigit(n: nat): (c: Byte)
    requires n < 16
  {
    if n < 10 then 48 + n else 87 + n
  }

  /** "macaddr=" and the address in colon-separated hexadecimal. */
  function MacText(mac: seq<Byte>): (s: seq<Byte>)
    requires |mac| == 6
    ensures |s| == 25
  {
    MACADDR + [EQUALS] +
    seq(17, i requires 0 <= i < 17 =>
      if i % 3 == 0 then HexDigit(mac[i / 3] / 16) else if i % 3 == 1 then HexDigit(mac[i / 3] % 16) else COLON)
  }

  function FinalEntries(entries: seq<seq<Byte>>, boardrev: bool, mac: Option<seq<Byte>>): seq<seq<Byte>>
    requires mac.Some? ==> |mac.value| == 6
  {
    entries + (if boardrev then [] else [DEFAULT_BOARDREV]) + (if mac.None? then [] else [MacText(mac.value)])
  }

  /** `TooSmall`: the buffer does not hold what the code writes, or reads, without checking. */
  datatype Outcome = Nvram(bytes: seq<Byte>) | NoNvram | TooSmall

  /** The image of the entries, if it fits the buffer they are in. */
  function Wrap(entries: seq<seq<Byte>>, room: nat): Outcome {
    if ImageSize(|Packed(entries)|) <= room then Nvram(Image(Packed(entries))) else TooSmall
  }

  /** The entries that are finally in the buffer, and the buffer's size. */
  function Completed(es: seq<seq<Byte>>, boardrev: bool, mac: Option<seq<Byte>>, room: nat): Outcome
    requires mac.Some? ==> |mac.value| == 6
  {
    if es == [] then NoNvram else Wrap(FinalEntries(es, boardrev, mac), room)
  }

  /** The items a text contributes: those that fit, and one more whose key was still seen. */
  function Parsed(data: seq<Byte>, stripMac: bool): (r: (seq<Item>, nat, nat))
    requires Terminated(data)
    ensures r.1 <= r.2 <= |r.0|
  {
    var items := ItemsFrom(data, 0, stripMac);
    var n := Accepted(items, 0);
    (items, n, if n < |items| then n + 1 else n)
  }

  /** What the text, the platform's MAC and the device's location determine. */
  function Stripped(data: seq<Byte>, mac: Option<seq<Byte>>, domain: nat, bus: nat): (r: Outcome)
    requires Terminated(data) && (mac.Some? ==> |mac.value| == 6)
  {
    var (items, n, seen) := Parsed(data, mac.Some?);
    var entries := Kept(items[..n]);
    var newRoom := |Packed(entries)| + 8;
    if AnyKey(items, seen, DEVPATH) then
      match StripV1(entries, domain, bus)
      case None => NoNvram
      case Some(es) => Completed(es, AnyBoardrev(es), mac, newRoom)
    else if AnyKey(items, seen, PCIE) then
      match StripV2(entries, domain, bus)
      case None => TooSmall
      case Some(es) => Completed(es, AnyBoardrev(es), mac, newRoom)
    else Completed(entries, AnyKey(items, seen, BOARDREV), mac, Capacity(|data|))
  }

  // ----- what fits

  lemma FinalSize(es: seq<seq<Byte>>, boardrev: bool, mac: Option<seq<Byte>>)
    requires mac.Some? ==> |mac.value| == 6
    ensures |Packed(FinalEntries(es, boardrev, mac))| ==
            |Packed(es)| + (if boardrev then 0 else 14) + (if mac.None? then 0 else 26)
  {
    hide Packed, MacText;
    var base := es + (if boardrev then [] else [DEFAULT_BOARDREV]);
    if boardrev { assert base == es; } else { PackedNext(es, DEFAULT_BOARDREV); }
    if mac.None? { assert base + [] == base; } else { PackedNext(base, MacText(mac.value)); }
  }

  /** Exactly how much room the strips leave: what is dropped must make up for what is appended. */
  lemma CompletedIff(es: seq<seq<Byte>>, boardrev: bool, mac: Option<seq<Byte>>, room: nat)
    requires mac.Some? ==> |mac.value| == 6
    ensures Completed(es, boardrev, mac, room) == TooSmall <==>
      es != [] && ImageSize(|Packed(es)| + (if boardrev then 0 else 14) + (if mac.None? then 0 else 26)) > room
  {
    FinalSize(es, boardrev, mac);
    hide Packed, FinalEntries, ImageSize;
  }

  /** A text for a single device always fits what was allocated for it. */
  lemma SingleDeviceFits(data: seq<Byte>, mac: Option<seq<Byte>>, domain: nat, bus: nat)
    requires Terminated(data) && (mac.Some? ==> |mac.value| == 6)
    ensures var (items, n, seen) := Parsed(data, mac.Some?);
      !AnyKey(items, seen, DEVPATH) && !AnyKey(items, seen, PCIE) ==> Stripped(data, mac, domain, bus) != TooSmall
  {
    hide ItemsFrom, Accepted, Kept, Packed, AnyKey, Completed;
    var (items, n, seen) := Parsed(data, mac.Some?);
    AcceptedFits(items, n);
    OutputFitsInput(data, 0, mac.Some?);
    PrefixFits(items, n);
    CompletedIff(Kept(items[..n]), AnyKey(items, seen, BOARDREV), mac, Capacity(|data|));
  }

  /** So does a v1 text without a MAC: the devpath entry makes room for the default board revision. */
  lemma V1WithoutMacFits(data: seq<Byte>, domain: nat, bus: nat)
    requires Terminated(data)
    ensures var (items, n, seen) := Parsed(data, false);
      AnyKey(items, seen, DEVPATH) ==> Stripped(data, None, domain, bus) != TooSmall
  {
    hide ItemsFrom, Accepted, Kept, Packed, AnyKey, Completed, Selected, VirtualId, AnyBoardrev;
    var (items, n, seen) := Parsed(data, false);
    var entries := Kept(items[..n]);
    var es := StripV1(entries, domain, bus);
    if es.Some? {
      DevpathFreesRoom(entries, domain, bus, 0);
      CompletedIff(es.value, AnyBoardrev(es.value), None, |Packed(entries)| + 8);
    }
  }

  /** What is appended to stripped entries: a default board revision if they have none, and a MAC. */
  function Appended(es: seq<seq<Byte>>, mac: Option<seq<Byte>>): nat {
    (if AnyBoardrev(es) then 0 else 14) + if mac.None? then 0 else 26
  }

  /** The NULs beyond the first that fill up the last word. */
  function Padding(n: nat): nat { RoundUp4(n + 1) - (n + 1) }

  /** The strip makes too little room: what is appended, with its padding, is more than three bytes more
      than what was dropped. */
  predicate LacksRoom(m: Mark, entries: seq<seq<Byte>>, mac: Option<seq<Byte>>) {
    var es := Selected(m, entries);
    var a := Appended(es, mac);
    es != [] && a + Padding(|Packed(es)| + a) > Dropped(m, entries) + 3
  }

  lemma LacksRoomIff(m: Mark, entries: seq<seq<Byte>>, mac: Option<seq<Byte>>)
    requires mac.Some? ==> |mac.value| == 6
    ensures var es := Selected(m, entries);
      Completed(es, AnyBoardrev(es), mac, |Packed(entries)| + 8) == TooSmall <==> LacksRoom(m, entries, mac)
  {
    hide Packed, Selected, AnyBoardrev, Completed, Dropped;
    var es := Selected(m, entries);
    KeptAndDropped(m, entries);
    CompletedIff(es, AnyBoardrev(es), mac, |Packed(entries)| + 8);
  }

  /** The mark a text's entries are chosen by, if it is for several devices and the device is found. */
  function MarkOf(v1: bool, entries: seq<seq<Byte>>, domain: nat, bus: nat): (m: Option<Mark>) {
    if v1 then
      match VirtualId(entries, domain, bus, 0)
      case None => None
      case Some(x) => if |Packed(entries)| < DEVPATH_LEN + 6 then None else Some(ById(x))
    else
      var path := DevicePath(domain, bus);
      if |Packed(entries)| < |path| then None else Some(ByPath(path))
  }

  /** A text for several devices does not fit if and only if the strip makes too little room or, for a
      v2 text, its entries are shorter than the device's path. */
  lemma StripFitsIff(data: seq<Byte>, mac: Option<seq<Byte>>, domain: nat, bus: nat)
    requires Terminated(data) && (mac.Some? ==> |mac.value| == 6)
    ensures var (items, n, seen) := Parsed(data, mac.Some?); var entries := Kept(items[..n]);
      var v1, v2 := AnyKey(items, seen, DEVPATH), AnyKey(items, seen, PCIE);
      var m := MarkOf(v1, entries, domain, bus);
      v1 || v2 ==>
        (Stripped(data, mac, domain, bus) == TooSmall <==>
           if m.Some? then LacksRoom(m.value, entries, mac) else !v1)
  {
    hide ItemsFrom, Accepted, Kept, Packed, AnyKey, Completed, LacksRoom, AnyBoardrev, Selected, DevicePath, VirtualId;
    var (items, n, seen) := Parsed(data, mac.Some?);
    var entries := Kept(items[..n]);
    var m := MarkOf(AnyKey(items, seen, DEVPATH), entries, domain, bus);
    if m.Some? { LacksRoomIff(m.value, entries, mac); }
  }

  // ----- texts that do not fit

  const V2_KEY: seq<Byte> := [112, 99, 105, 101, 47, 48, 47, 49, 47, 97]       // "pcie/0/1/a"
  const V1_KEY: seq<Byte> := [100, 101, 118, 112, 97, 116, 104, 48]             // "devpath0"
  const V1_PATH: seq<Byte> := [112, 99, 105, 101, 47, 48, 47, 49, 47]           // "pcie/0/1/"
  const ID_KEY: seq<Byte> := [48, 58, 97]                                       // "0:a"
  const B: seq<Byte> := [98]                                                    // "b"

  /** A short rendered text is parsed completely. */
  lemma ShortText(pairs: seq<(seq<Byte>, seq<Byte>)>, stripMac: bool)
    requires forall e :: e in pairs ==> WellformedPair(e.0, e.1, stripMac)
    requires |Packed(Texts(pairs))| < MAX_NVRAM_SIZE
    ensures Terminated(Render(pairs)) && |Rendered(pairs)| == |pairs| && Kept(Rendered(pairs)) == Texts(pairs)
    ensures Parsed(Render(pairs), stripMac) == (Rendered(pairs), |pairs|, |pairs|)
  {
    RenderItems([], pairs, stripMac);
    RenderedKept(pairs);
    assert [] + Render(pairs) == Render(pairs);
    RenderedLength(pairs);
    AllFit(Rendered(pairs), 0);
  }

  lemma {:induction false} RenderedLength(pairs: seq<(seq<Byte>, seq<Byte>)>)
    ensures |Rendered(pairs)| == |pairs|
    ensures forall it :: it in Rendered(pairs) ==> it.kept
  {
    if pairs != [] { RenderedLength(pairs[1..]); }
  }

  lemma {:induction false} AllFit(items: seq<Item>, n: nat)
    requires n <= |items| && |Packed(Kept(items))| < MAX_NVRAM_SIZE
    ensures Accepted(items, n) == |items|
    decreases |items| - n
  {
    if n < |items| {
      hide Packed, Kept;
      PrefixFits(items, n + 1);
      OneMore(items, n);
      AllFit(items, n + 1);
    }
  }

  lemma RenderedOne(p: (seq<Byte>, seq<Byte>))
    ensures var e := p.0 + [EQUALS] + p.1; Rendered([p]) == [Item(p.0, e, true)] && Texts([p]) == [e]
  {
    assert [p][1..] == [];
  }

  lemma RenderedTwo(p: (seq<Byte>, seq<Byte>), q: (seq<Byte>, seq<Byte>))
    ensures var e, f := p.0 + [EQUALS] + p.1, q.0 + [EQUALS] + q.1;
      Rendered([p, q]) == [Item(p.0, e, true), Item(q.0, f, true)] && Texts([p, q]) == [e, f]
  {
    assert [p, q][1..] == [q];
    RenderedOne(q);
  }

  /** A key that starts with neither 'R' nor 'm' is not excluded. */
  lemma PairIsFine(key: seq<Byte>, value: seq<Byte>, stripMac: bool)
    requires key != [] && key[0] != RAW1[0] && key[0] != MACADDR[0]
    requires forall i :: 0 <= i < |key| ==> IsKeyChar(key[i])
    requires forall i :: 0 <= i < |value| ==> IsNvramChar(value[i])
    ensures WellformedPair(key, value, stripMac)
  {}

  lemma PackedOne(a: seq<Byte>)
    ensures Packed([a]) == a + [NUL]
  {
    assert [a][..0] == [];
  }

  lemma PackedTwo(a: seq<Byte>, b: seq<Byte>)
    ensures Packed([a, b]) == a + [NUL] + b + [NUL]
  {
    assert [a, b][..1] == [a];
    PackedOne(a);
  }

  /** A v2 text with the single entry "pcie/0/1/a=b": 24 bytes of image for 21 bytes of buffer. */
  lemma V2TextDoesNotFit()
    ensures Terminated(Render([(V2_KEY, B)])) && Stripped(Render([(V2_KEY, B)]), None, 0, 1) == TooSmall
  {
    var pairs := [(V2_KEY, B)];
    var e := V2_KEY + [EQUALS] + B;
    RenderedOne((V2_KEY, B));
    PairIsFine(V2_KEY, B, false);
    PackedOne(e);
    V2Lacks(e);
    hide Packed, Rendered, Texts, Render, WellformedPair, Parsed, Stripped, LacksRoom, MarkOf, Kept;
    ShortText(pairs, false);
    assert HasPrefix(Rendered(pairs)[0].key, PCIE);
    assert Rendered(pairs)[..1] == Rendered(pairs);
    NotDevpath(V2_KEY);
    StripFitsIff(Render(pairs), None, 0, 1);
  }

  lemma NotDevpath(key: seq<Byte>)
    requires key != [] && key[0] != DEVPATH[0]
    ensures !HasPrefix(key, DEVPATH)
  {}

  lemma PathZeroOne()
    ensures DevicePath(0, 1) == V1_PATH
  {}

  lemma OneSelected(m: Mark, e: seq<Byte>, rest: seq<Byte>)
    requires Cut(m) <= |e| && Selects(m, e) && e[Cut(m)..] == rest
    ensures Selected(m, [e]) == [rest] && Dropped(m, [e]) == Cut(m)
  {
    hide Selects, Cut;
    assert [e][..0] == [];
  }

  lemma V2Lacks(e: seq<Byte>)
    requires e == V2_KEY + [EQUALS] + B
    ensures MarkOf(false, [e], 0, 1) == Some(ByPath(DevicePath(0, 1))) && LacksRoom(ByPath(DevicePath(0, 1)), [e], None)
  {
    hide DevicePath, Selected, Dropped, Packed, VirtualId;
    PathZeroOne();
    PackedOne(e);
    var m, rest := ByPath(V1_PATH), [97, EQUALS, 98];
    assert e[..9] == V1_PATH && e[9..] == rest;
    OneSelected(m, e, rest);
    PackedOne(rest);
    assert !HasPrefix(rest, BOARDREV);
  }

  /** A v2 text with the single entry "pcie/=" is shorter than the path of any device. */
  lemma V2TextIsTooShort(domain: nat, bus: nat)
    ensures Terminated(Render([(PCIE, [])])) && Stripped(Render([(PCIE, [])]), None, domain, bus) == TooSmall
  {
    var pairs: seq<(seq<Byte>, seq<Byte>)> := [(PCIE, [])];
    var e := PCIE + [EQUALS] + [];
    RenderedOne((PCIE, []));
    PairIsFine(PCIE, [], false);
    PackedOne(e);
    assert MarkOf(false, [e], domain, bus) == None;
    hide Packed, Rendered, Texts, Render, WellformedPair, Parsed, Stripped, LacksRoom, MarkOf, Kept;
    ShortText(pairs, false);
    assert HasPrefix(Rendered(pairs)[0].key, PCIE);
    assert Rendered(pairs)[..1] == Rendered(pairs);
    NotDevpath(PCIE);
    StripFitsIff(Render(pairs), None, domain, bus);
  }

  /** A v1 text with "devpath0=pcie/0/1/" and "0:a=b", and any MAC: 52 bytes for 33. */
  lemma V1TextWithMacDoesNotFit(mac: seq<Byte>)
    requires |mac| == 6
    ensures var data := Render([(V1_KEY, V1_PATH), (ID_KEY, B)]);
      Terminated(data) && Stripped(data, Some(mac), 0, 1) == TooSmall
  {
    var pairs := [(V1_KEY, V1_PATH), (ID_KEY, B)];
    var e1, e2 := V1_KEY + [EQUALS] + V1_PATH, ID_KEY + [EQUALS] + B;
    RenderedTwo((V1_KEY, V1_PATH), (ID_KEY, B));
    PairIsFine(V1_KEY, V1_PATH, true);
    PairIsFine(ID_KEY, B, true);
    PackedTwo(e1, e2);
    V1Lacks(e1, e2, mac);
    hide Packed, Rendered, Texts, Render, WellformedPair, Parsed, Stripped, LacksRoom, MarkOf, Kept;
    ShortText(pairs, true);
    assert HasPrefix(Rendered(pairs)[0].key, DEVPATH);
    assert Rendered(pairs)[..2] == Rendered(pairs);
    StripFitsIff(Render(pairs), Some(mac), 0, 1);
  }

  lemma V1Found(e1: seq<Byte>, e2: seq<Byte>)
    requires e1 == V1_KEY + [EQUALS] + V1_PATH && |Packed([e1, e2])| > DEVPATH_LEN
    ensures VirtualId([e1, e2], 0, 1, 0) == Some(48)
  {
    hide Packed;
    NoOffset([e1, e2]);
    var path := PathOf(true, 0, 1);
    assert path == [EQUALS] + V1_PATH[..8];
    assert e1[8..] == [EQUALS] + V1_PATH;
    assert e1[..7] == DEVPATH && DevpathFor(e1, 0, 1) && e1[7] == 48;
  }

  lemma V1Chosen(e1: seq<Byte>, e2: seq<Byte>)
    requires |e1| == 18 && e1[0] == 100 && e2 == ID_KEY + [EQUALS] + B
    ensures Selected(ById(48), [e1, e2]) == [[97, EQUALS, 98]] && Dropped(ById(48), [e1, e2]) == 21
  {
    assert e2[2..] == [97, EQUALS, 98];
    assert [e1, e2][..1] == [e1] && [e1][..0] == [];
    NotSelected(ById(48), e1);
  }

  lemma NotSelected(m: Mark, e: seq<Byte>)
    requires !Selects(m, e)
    ensures Selected(m, [e]) == [] && Dropped(m, [e]) == |e| + 1
  {
    hide Selects, Cut;
    assert [e][..0] == [];
  }

  lemma V1Lacks(e1: seq<Byte>, e2: seq<Byte>, mac: seq<Byte>)
    requires e1 == V1_KEY + [EQUALS] + V1_PATH && e2 == ID_KEY + [EQUALS] + B
    ensures MarkOf(true, [e1, e2], 0, 1) == Some(ById(48)) && LacksRoom(ById(48), [e1, e2], Some(mac))
  {
    PackedTwo(e1, e2);
    hide Packed, Selected, Dropped, VirtualId, DevicePath, DevpathFor;
    V1Found(e1, e2);
    V1Chosen(e1, e2);
    PackedOne([97, EQUALS, 98]);
  }

  // ----- what the device finds

  function Half(s: seq<Byte>, i: nat): nat
    requires i + 2 <= |s|
  {
    var low: int, high: int := s[i], s[i + 1];
    low + 0x100 * high
  }

  lemma DropHigh(high: nat, low: nat)
    requires low < 0x1_0000_0000
    ensures (high * 0x1_0000_0000 + low) % 0x1_0000_0000 == low
  {}

  lemma TokenValue(w: nat)
    requires w < 0x1_0000
    ensures Token(w) == (0xffff - w) * 0x1_0000 + w
  {
    assert (0xffff_ffff - w) * 0x1_0000 == 0xffff * 0x1_0000_0000 + (0xffff - w) * 0x1_0000;
    DropHigh(0xffff, (0xffff - w) * 0x1_0000);
  }

  lemma Le32Halves(h: nat, w: nat)
    requires w < 0x1_0000 && h < 0x1_0000
    ensures Half(Le32(h * 0x1_0000 + w), 0) == w && Half(Le32(h * 0x1_0000 + w), 2) == h
  {
    var b0, b1, b2, b3 := w % 0x100, w / 0x100, h % 0x100, h / 0x100;
    var t2 := b2 + 0x100 * b3;
    var t1 := b1 + 0x100 * t2;
    assert h * 0x1_0000 + w == b0 + 0x100 * t1;
    LowByte(b0, t1);
    LowByte(b1, t2);
    LowByte(b2, b3);
  }

  lemma LowByte(b: nat, q: nat)
    requires b < 0x100
    ensures (b + 0x100 * q) % 0x100 == b && (b + 0x100 * q) / 0x100 == q
  {}

  lemma TokenHalves(w: nat)
    requires w < 0x1_0000
    ensures Half(Le32(Token(w)), 0) == w && Half(Le32(Token(w)), 2) == 0xffff - w
  {
    TokenValue(w);
    Le32Halves(0xffff - w, w);
  }

  lemma TailHalves(a: seq<Byte>, t: seq<Byte>)
    requires |t| == 4
    ensures Half(a + t, |a|) == Half(t, 0) && Half(a + t, |a| + 2) == Half(t, 2)
  {}

  /** Whole words, the last of which counts the others in its low half and complements that in its
      high half. */
  predicate WellLaidOut(s: seq<Byte>) {
    var n := |s|;
    n % 4 == 0 && n >= 8 && Half(s, n - 4) * 4 == n - 4 && Half(s, n - 2) == 0xffff - Half(s, n - 4)
  }

  /** The image is a whole number of words: the entries, at least one NUL of padding, and a token
      whose low half counts the words before it and whose high half is the complement. */
  lemma ImageLayout(body: seq<Byte>)
    requires |body| < 0x3_0000
    ensures var s := Image(body); var n := |s|;
      && n % 4 == 0 && |body| + 1 + 4 <= n <= |body| + 4 + 4
      && s[..|body|] == body
      && (forall i :: |body| <= i < n - 4 ==> s[i] == NUL)
      && WellLaidOut(s)
  {
    var n := RoundUp4(|body| + 1);
    TokenHalves(n / 4);
    hide Token, Le32, RoundUp4, Zeros, Half;
    TailHalves(body + Zeros(n - |body|), Le32(Token(n / 4)));
  }

  /** A completed image of fewer than 64000 bytes of entries is well laid out. */
  lemma CompletedLayout(es: seq<seq<Byte>>, boardrev: bool, mac: Option<seq<Byte>>, room: nat)
    requires (mac.Some? ==> |mac.value| == 6) && |Packed(es)| < MAX_NVRAM_SIZE
    ensures var r := Completed(es, boardrev, mac, room); r.Nvram? ==> WellLaidOut(r.bytes)
  {
    FinalSize(es, boardrev, mac);
    hide Packed, FinalEntries, Image, WellLaidOut, ImageSize;
    ImageLayout(Packed(FinalEntries(es, boardrev, mac)));
  }

  lemma StripShrinks(entries: seq<seq<Byte>>, domain: nat, bus: nat)
    ensures var v1 := StripV1(entries, domain, bus); v1.Some? ==> |Packed(v1.value)| <= |Packed(entries)|
    ensures var v2 := StripV2(entries, domain, bus); v2.Some? ==> |Packed(v2.value)| <= |Packed(entries)|
  {
    hide Packed, Selected, VirtualId, DevicePath;
    assert entries[..|entries|] == entries;
    var v1 := VirtualId(entries, domain, bus, 0);
    if v1.Some? { SelectedFits(ById(v1.value), entries, |entries|, |entries|); }
    SelectedFits(ByPath(DevicePath(domain, bus)), entries, |entries|, |entries|);
  }

  /** Whatever the text, the MAC and the device: what comes out is well laid out. */
  lemma ResultIsWellLaidOut(data: seq<Byte>, mac: Option<seq<Byte>>, domain: nat, bus: nat)
    requires Terminated(data) && (mac.Some? ==> |mac.value| == 6)
    ensures var r := Stripped(data, mac, domain, bus); r.Nvram? ==> WellLaidOut(r.bytes)
  {
    hide ItemsFrom, Accepted, Kept, Packed, AnyKey, Completed, StripV1, StripV2, AnyBoardrev, WellLaidOut;
    var (items, n, seen) := Parsed(data, mac.Some?);
    var entries := Kept(items[..n]);
    AcceptedFits(items, n);
    StripShrinks(entries, domain, bus);
    var room := |Packed(entries)| + 8;
    var v1, v2 := StripV1(entries, domain, bus), StripV2(entries, domain, bus);
    if v1.Some? { CompletedLayout(v1.value, AnyBoardrev(v1.value), mac, room); }
    if v2.Some? { CompletedLayout(v2.value, AnyBoardrev(v2.value), mac, room); }
    CompletedLayout(entries, AnyKey(items, seen, BOARDREV), mac, Capacity(|data|));
  }

  // ----- the code

  /** Appends an entry and its NUL. */
  method Append(buf: array<Byte>, len: nat, e: seq<Byte>) returns (len': nat)
    requires len + |e| < buf.Length
    modifies buf
    ensures len' == len + |e| + 1 && buf[..len'] == old(buf[..len]) + e + [NUL]
  {
    ghost var before := buf[..len];
    for i := 0 to |e|
      invariant buf[..len + i] == before + e[..i]
    {
      buf[len + i] := e[i];
      assert buf[..len + i + 1] == buf[..len + i] + [e[i]];
    }
    buf[len + |e|] := NUL;
    assert buf[..len + |e| + 1] == buf[..len + |e|] + [NUL];
    len' := len + |e| + 1;
  }

  /** Pads to a word boundary and writes the token. */
  method Close(buf: array<Byte>, len: nat) returns (newLen: nat)
    requires ImageSize(len) <= buf.Length
    modifies buf
    ensures newLen <= buf.Length && buf[..newLen] == Image(old(buf[..len]))
  {
    ghost var body := buf[..len];
    newLen := RoundUp4(len + 1);
    hide RoundUp4, Token;
    Pad(buf, len, newLen);
    WriteToken(buf, newLen, Le32(Token(newLen / 4)));
    newLen := newLen + 4;
  }

  method Pad(buf: array<Byte>, len: nat, newLen: nat)
    requires len <= newLen <= buf.Length
    modifies buf
    ensures buf[..newLen] == old(buf[..len]) + Zeros(newLen - len)
  {
    ghost var body := buf[..len];
    var pad := len;
    while pad != newLen
      invariant len <= pad <= newLen && buf[..pad] == body + Zeros(pad - len)
    {
      buf[pad] := 0;
      assert buf[..pad + 1] == buf[..pad] + [NUL];
      assert Zeros(pad - len) + [NUL] == Zeros(pad + 1 - len);
      pad := pad + 1;
    }
  }

  method WriteToken(buf: array<Byte>, at: nat, token: seq<Byte>)
    requires |token| == 4 && at + 4 <= buf.Length
    modifies buf
    ensures buf[..at + 4] == old(buf[..at]) + token
  {
    ghost var before := buf[..at];
    for i := 0 to 4
      invariant buf[..at + i] == before + token[..i]
    {
      buf[at + i] := token[i];
      assert buf[..at + i + 1] == buf[..at + i] + [token[i]];
    }
  }

  /** Appends the defaults and the MAC and closes the image. The code has no such check: it goes on
      writing where this gives up. */
  method Finish(buf: array<Byte>, len: nat, boardrev: bool, mac: Option<seq<Byte>>, ghost entries: seq<seq<Byte>>)
    returns (r: Outcome)
    requires mac.Some? ==> |mac.value| == 6
    requires len <= buf.Length && buf[..len] == Packed(entries)
    modifies buf
    ensures r == Completed(entries, boardrev, mac, buf.Length)
  {
    hide Packed, MacText, Image, ImageSize;
    CompletedIff(entries, boardrev, mac, buf.Length);
    FinalSize(entries, boardrev, mac);
    PackedEmpty(entries);
    if len == 0 { return NoNvram; }
    var needed := ImageSize(len + (if boardrev then 0 else 14) + (if mac.None? then 0 else 26));
    if needed > buf.Length { return TooSmall; }
    SizeBound(len + (if boardrev then 0 else 14) + (if mac.None? then 0 else 26));
    var n := len;
    ghost var es := entries;
    if !boardrev {
      n := Append(buf, n, DEFAULT_BOARDREV);
      PackedAppend(es, DEFAULT_BOARDREV);
      es := es + [DEFAULT_BOARDREV];
    }
    if mac.Some? {
      n := Append(buf, n, MacText(mac.value));
      PackedAppend(es, MacText(mac.value));
      es := es + [MacText(mac.value)];
    }
    assert es == FinalEntries(entries, boardrev, mac);
    var newLen := Close(buf, n);
    r := Nvram(buf[..newLen]);
  }

  lemma NothingToComplete(es: seq<seq<Byte>>, boardrev: bool, mac: Option<seq<Byte>>, room: nat)
    requires mac.Some? ==> |mac.value| == 6
    ensures es == [] ==> Completed(es, boardrev, mac, room) == NoNvram
  {}

  lemma SizeBound(n: nat)
    ensures n < ImageSize(n)
  {}

  lemma PackedAppend(es: seq<seq<Byte>>, e: seq<Byte>)
    ensures Packed(es + [e]) == Packed(es) + e + [NUL]
  {
    assert (es + [e])[..|es|] == es;
  }

  lemma EntriesWellformed(data: seq<Byte>, stripMac: bool, n: nat)
    requires Terminated(data) && n <= |ItemsFrom(data, 0, stripMac)|
    ensures Wellformed(Kept(ItemsFrom(data, 0, stripMac)[..n]))
  {
    ItemsLegal(data, 0, stripMac);
    KeptClean(ItemsFrom(data, 0, stripMac)[..n], stripMac);
  }

  lemma PackedEmpty(es: seq<seq<Byte>>)
    ensures |Packed(es)| == 0 <==> es == []
  {}

  /** The image is the one the text means; every access on the way stays inside its buffer, but for the
      cases that are `TooSmall`. */
  method NvramStrip(data: seq<Byte>, mac: Option<seq<Byte>>, domain: nat, bus: nat) returns (r: Outcome)
    requires Terminated(data) && (mac.Some? ==> |mac.value| == 6)
    ensures r == Stripped(data, mac, domain, bus)
  {
    hide Packed, Kept, ItemsFrom, AnyKey, StripV1, Completed, AnyBoardrev, Accepted, Wellformed, NvramParser.Inv;
    hide DevicePath, Selected;
    var nvp := new NvramParser(data, mac.Some?);
    nvp.Parse();
    ghost var n := Accepted(nvp.Items(), 0);
    ghost var entries := Kept(nvp.Items()[..n]);
    EntriesWellformed(data, mac.Some?, n);
    if nvp.multiDevV1 {
      var out, outLen, boardrev := StripMultiV1(nvp.nvram, nvp.nvramLen, domain, bus, entries);
      ghost var v1 := StripV1(entries, domain, bus);
      ghost var es := if v1.Some? then v1.value else [];
      PackedEmpty(es);
      NothingToComplete(es, boardrev, mac, out.Length);
      if outLen == 0 { return NoNvram; }
      r := Finish(out, outLen, boardrev, mac, es);
    } else if nvp.multiDevV2 {
      var ok, out, outLen, boardrev := StripMultiV2(nvp.nvram, nvp.nvramLen, domain, bus, entries);
      if !ok { return TooSmall; }
      r := Finish(out, outLen, boardrev, mac, StripV2(entries, domain, bus).value);
    } else {
      r := Finish(nvp.nvram, nvp.nvramLen, nvp.boardrevFound, mac, entries);
    }
  }
}
