/** What the device reads from an NVRAM image, and what that says of the text it was made from
    (wifi-bcm4350/src/firmware.c:237-449). */
module NvramReading {
  import opened Basics
  import opened NvramSpec
  import opened NvramParsers
  import opened NvramMulti
  import opened NvramImage

  /** The names the code looks for, and the entry it adds. */
  lemma Names()
    ensures RAW1 == Ascii("RAW1") && DEVPATH == Ascii("devpath") && PCIE == Ascii("pcie/")
    ensures BOARDREV == Ascii("boardrev") && MACADDR == Ascii("macaddr")
    ensures DEFAULT_BOARDREV == Ascii("boardrev=0xff")
  {}

  // ----- strings

  function NulAt(s: seq<Byte>): (n: nat)
    ensures n <= |s| && (n < |s| ==> s[n] == NUL) && forall i :: 0 <= i < n ==> s[i] != NUL
  {
    if s == [] || s[0] == NUL then 0 else 1 + NulAt(s[1..])
  }

  /** The strings one after the other, up to the first empty one. */
  function Strings(s: seq<Byte>): (es: seq<seq<Byte>>)
    decreases |s|
  {
    var n := NulAt(s);
    if n == 0 || n == |s| then [] else [s[..n]] + Strings(s[n + 1..])
  }

  predicate IsString(e: seq<Byte>) { e != [] && NUL !in e }

  lemma NulBehind(e: seq<Byte>, rest: seq<Byte>)
    requires NUL !in e
    ensures NulAt(e + [NUL] + rest) == |e|
  {
    var s := e + [NUL] + rest;
    assert s[|e|] == NUL;
    forall i | 0 <= i < |e| ensures s[i] != NUL { assert s[i] == e[i] && e[i] in e; }
  }

  lemma StringsCons(e: seq<Byte>, rest: seq<Byte>)
    requires IsString(e)
    ensures Strings(e + [NUL] + rest) == [e] + Strings(rest)
  {
    NulBehind(e, rest);
    hide NulAt;
    var s := e + [NUL] + rest;
    assert s[..|e|] == e && s[|e| + 1..] == rest;
  }

  lemma StringsEnd(rest: seq<Byte>)
    requires rest != [] && rest[0] == NUL
    ensures Strings(rest) == []
  {}

  lemma {:induction false} StringsOfPacked(es: seq<seq<Byte>>, rest: seq<Byte>)
    requires (forall e :: e in es ==> IsString(e)) && rest != [] && rest[0] == NUL
    ensures Strings(Packed(es) + rest) == es
    decreases |es|
  {
    hide Packed, Strings, IsString;
    if es == [] {
      PackedNone(es);
      StringsEnd(rest);
      assert Packed(es) + rest == rest;
    } else {
      var e, tail := es[0], es[1..];
      assert e in es && es == [e] + tail;
      PackedFirst(es);
      StringsOfPacked(tail, rest);
      assert Packed(es) + rest == e + [NUL] + (Packed(tail) + rest);
      StringsCons(e, Packed(tail) + rest);
    }
  }

  lemma PackedFirst(es: seq<seq<Byte>>)
    requires es != []
    ensures Packed(es) == es[0] + [NUL] + Packed(es[1..])
  {
    PackedConcat([es[0]], es[1..]);
    PackedOne(es[0]);
    assert [es[0]] + es[1..] == es;
  }

  /** The device reads back exactly the entries an image was made of. */
  lemma ImageIsRead(es: seq<seq<Byte>>)
    requires forall e :: e in es ==> IsString(e)
    ensures Strings(Image(Packed(es))) == es
  {
    var body := Packed(es);
    var n := RoundUp4(|body| + 1);
    var rest := Zeros(n - |body|) + Le32(Token(n / 4));
    StringsOfPacked(es, rest);
    hide Token, Le32, RoundUp4, Packed;
    assert Image(body) == body + rest;
  }

  // ----- the MAC address

  function HexValue(c: Byte): int {
    if 48 <= c <= 57 then c - 48 else if 97 <= c <= 102 then c - 97 + 10 else -1
  }

  predicate IsMacText(s: seq<Byte>) {
    && |s| == 17
    && (forall i :: 0 <= i < 6 ==> HexValue(s[3 * i]) >= 0 && HexValue(s[3 * i + 1]) >= 0)
    && (forall i :: 0 <= i < 5 ==> s[3 * i + 2] == ':' as int)
  }

  /** Six pairs of hexadecimal digits with colons between them. */
  function ReadMac(s: seq<Byte>): (mac: Option<seq<int>>) {
    if IsMacText(s) then
      Some(seq(6, i requires 0 <= i < 6 =>
        assert HexValue(s[3 * i]) >= 0; HexValue(s[3 * i]) * 16 + HexValue(s[3 * i + 1])))
    else None
  }

  lemma HexRoundTrip(n: nat)
    requires n < 16
    ensures HexValue(HexDigit(n)) == n
  {}

  lemma MacDigits(mac: seq<Byte>, i: nat)
    requires |mac| == 6 && i < 6
    ensures var s := MacText(mac)[8..];
      && HexValue(s[3 * i]) == mac[i] / 16 && HexValue(s[3 * i + 1]) == mac[i] % 16
      && (i < 5 ==> s[3 * i + 2] == 58)
  {
    HexRoundTrip(mac[i] / 16);
    HexRoundTrip(mac[i] % 16);
    assert 3 * i / 3 == i && 3 * i % 3 == 0 && (3 * i + 1) / 3 == i && (3 * i + 1) % 3 == 1 && (3 * i + 2) % 3 == 2;
    hide HexDigit, HexValue;
    var s := MacText(mac)[8..];
    assert s[3 * i] == MacText(mac)[8 + 3 * i] && s[3 * i + 1] == MacText(mac)[9 + 3 * i];
  }

  /** The MAC entry reads as the MAC address. */
  lemma MacIsRead(mac: seq<Byte>)
    requires |mac| == 6
    ensures var e := MacText(mac); e[..8] == Ascii("macaddr=") && ReadMac(e[8..]) == Some(mac) && IsString(e)
  {
    MacName(mac);
    MacHasNoNul(mac);
    var s := MacText(mac)[8..];
    forall i | 0 <= i < 6
      ensures HexValue(s[3 * i]) == mac[i] / 16 && HexValue(s[3 * i + 1]) == mac[i] % 16
      ensures i < 5 ==> s[3 * i + 2] == 58
    {
      MacDigits(mac, i);
    }
    hide MacText, HexValue, Ascii, ReadMac;
    DigitsAreRead(s, mac);
  }

  lemma MacName(mac: seq<Byte>)
    requires |mac| == 6
    ensures MacText(mac)[..8] == Ascii("macaddr=")
  {
    assert MacText(mac)[..8] == MACADDR + [EQUALS];
    hide MacText;
  }

  lemma DigitsAreRead(s: seq<Byte>, mac: seq<Byte>)
    requires |s| == 17 && |mac| == 6
    requires forall i :: 0 <= i < 6 ==> HexValue(s[3 * i]) == mac[i] / 16 && HexValue(s[3 * i + 1]) == mac[i] % 16
    requires forall i :: 0 <= i < 5 ==> s[3 * i + 2] == 58
    ensures ReadMac(s) == Some(mac)
  {
    hide HexValue;
    assert IsMacText(s);
    forall i | 0 <= i < 6 ensures ReadMac(s).value[i] == mac[i] { assert HexValue(s[3 * i]) == mac[i] / 16; }
    assert ReadMac(s).value == mac;
  }

  lemma MacHasNoNul(mac: seq<Byte>)
    requires |mac| == 6
    ensures NUL !in MacText(mac)
  {}

  // ----- the last entry

  /** What is left of an image without its token and its trailing NULs. */
  function Trimmed(s: seq<Byte>): (t: seq<Byte>)
    decreases |s|
  {
    if s != [] && s[|s| - 1] == NUL then Trimmed(s[..|s| - 1]) else s
  }

  function AfterLastNul(s: seq<Byte>): (t: seq<Byte>)
    decreases |s|
  {
    if s == [] || s[|s| - 1] == NUL then [] else AfterLastNul(s[..|s| - 1]) + [s[|s| - 1]]
  }

  function LastString(image: seq<Byte>): (e: seq<Byte>)
    requires |image| >= 4
  {
    AfterLastNul(Trimmed(image[..|image| - 4]))
  }

  lemma {:induction false} TrimmedZeros(s: seq<Byte>, k: nat)
    requires s != [] && s[|s| - 1] != NUL
    ensures Trimmed(s + Zeros(k)) == s
    decreases k
  {
    if k == 0 {
      assert s + Zeros(k) == s;
    } else {
      TrimmedZeros(s, k - 1);
      assert (s + Zeros(k))[..|s| + k - 1] == s + Zeros(k - 1);
    }
  }

  lemma {:induction false} AfterNul(pre: seq<Byte>, e: seq<Byte>)
    requires NUL !in e && (pre == [] || pre[|pre| - 1] == NUL)
    ensures AfterLastNul(pre + e) == e
    decreases |e|
  {
    if e == [] {
      assert pre + e == pre;
    } else {
      var front := e[..|e| - 1];
      AfterNul(pre, front);
      assert (pre + e)[..|pre + e| - 1] == pre + front;
      assert e == front + [e[|e| - 1]];
    }
  }

  lemma PackedEnds(es: seq<seq<Byte>>)
    ensures Packed(es) == [] || Packed(es)[|Packed(es)| - 1] == NUL
  {}

  lemma LastStringOfImage(es: seq<seq<Byte>>, e: seq<Byte>)
    requires IsString(e)
    ensures |Image(Packed(es + [e]))| >= 4 && LastString(Image(Packed(es + [e]))) == e
  {
    PackedNext(es, e);
    PackedEnds(es);
    var body := Packed(es + [e]);
    var n := RoundUp4(|body| + 1);
    var s := Image(body);
    hide Token, Le32, Packed, RoundUp4;
    var pre := Packed(es);
    assert s[..|s| - 4] == body + Zeros(n - |body|);
    assert body + Zeros(n - |body|) == pre + e + Zeros(n - |body| + 1);
    TrimmedZeros(pre + e, n - |body| + 1);
    AfterNul(pre, e);
  }

  predicate EndsWithMac(image: seq<Byte>, mac: seq<Byte>) {
    |image| >= 4 &&
    var e := LastString(image); |e| == 25 && e[..8] == Ascii("macaddr=") && ReadMac(e[8..]) == Some(mac)
  }

  /** Whatever the text and the device: with a MAC, the image's last entry is that MAC. */
  lemma LastEntryIsMac(data: seq<Byte>, mac: seq<Byte>, domain: nat, bus: nat)
    requires Terminated(data) && |mac| == 6
    ensures var r := Stripped(data, Some(mac), domain, bus); r.Nvram? ==> EndsWithMac(r.bytes, mac)
  {
    hide ItemsFrom, Accepted, Kept, Packed, AnyKey, Completed, StripV1, StripV2, AnyBoardrev, EndsWithMac;
    var (items, n, seen) := Parsed(data, true);
    var entries := Kept(items[..n]);
    var room := |Packed(entries)| + 8;
    var v1, v2 := StripV1(entries, domain, bus), StripV2(entries, domain, bus);
    if v1.Some? { CompletedMac(v1.value, AnyBoardrev(v1.value), mac, room); }
    if v2.Some? { CompletedMac(v2.value, AnyBoardrev(v2.value), mac, room); }
    CompletedMac(entries, AnyKey(items, seen, BOARDREV), mac, Capacity(|data|));
  }

  lemma CompletedMac(es: seq<seq<Byte>>, boardrev: bool, mac: seq<Byte>, room: nat)
    requires |mac| == 6
    ensures var r := Completed(es, boardrev, Some(mac), room); r.Nvram? ==> EndsWithMac(r.bytes, mac)
  {
    MacIsRead(mac);
    MacComesLast(es, boardrev, mac);
    hide Packed, Image, LastString, MacText, FinalEntries, ImageSize, Ascii, ReadMac;
  }

  lemma MacComesLast(es: seq<seq<Byte>>, boardrev: bool, mac: seq<Byte>)
    requires |mac| == 6
    ensures var s := Image(Packed(FinalEntries(es, boardrev, Some(mac)))); |s| >= 4 && LastString(s) == MacText(mac)
  {
    MacIsRead(mac);
    hide Image, Packed, LastString, MacText;
    LastStringOfImage(es + (if boardrev then [] else [DEFAULT_BOARDREV]), MacText(mac));
  }

  // ----- a text for one device, end to end

  predicate StartsWith(key: seq<Byte>, name: seq<Byte>) {
    |key| >= |name| && forall i :: 0 <= i < |name| ==> key[i] == name[i]
  }

  lemma PrefixIsStart(key: seq<Byte>, name: seq<Byte>)
    ensures HasPrefix(key, name) <==> StartsWith(key, name)
  {
    if StartsWith(key, name) { assert key[..|name|] == name; }
  }

  predicate AnyKeyIs(pairs: seq<(seq<Byte>, seq<Byte>)>, name: seq<Byte>) {
    exists i | 0 <= i < |pairs| :: StartsWith(pairs[i].0, name)
  }

  lemma {:induction false} RenderedAt(pairs: seq<(seq<Byte>, seq<Byte>)>, i: nat)
    requires i < |pairs|
    ensures |Rendered(pairs)| == |Texts(pairs)| == |pairs|
    ensures Rendered(pairs)[i].key == pairs[i].0 && Texts(pairs)[i] == pairs[i].0 + [EQUALS] + pairs[i].1
    decreases |pairs|
  {
    if |pairs| == 1 { assert pairs[1..] == []; }
    if |pairs| > 1 { RenderedAt(pairs[1..], if i > 0 then i - 1 else 0); }
  }

  lemma AnyKeyRendered(pairs: seq<(seq<Byte>, seq<Byte>)>, name: seq<Byte>)
    requires |Rendered(pairs)| == |pairs|
    ensures AnyKey(Rendered(pairs), |pairs|, name) <==> AnyKeyIs(pairs, name)
  {
    hide Rendered;
    forall i | 0 <= i < |pairs| ensures HasPrefix(Rendered(pairs)[i].key, name) <==> StartsWith(pairs[i].0, name) {
      RenderedAt(pairs, i);
      PrefixIsStart(pairs[i].0, name);
    }
    hide StartsWith, HasPrefix;
    if i :| 0 <= i < |pairs| && HasPrefix(Rendered(pairs)[i].key, name) { assert StartsWith(pairs[i].0, name); }
    if i :| 0 <= i < |pairs| && StartsWith(pairs[i].0, name) { assert HasPrefix(Rendered(pairs)[i].key, name); }
  }

  lemma TextsAreStrings(pairs: seq<(seq<Byte>, seq<Byte>)>, stripMac: bool)
    requires forall e :: e in pairs ==> WellformedPair(e.0, e.1, stripMac)
    ensures forall e :: e in Texts(pairs) ==> IsString(e)
  {
    forall e | e in Texts(pairs) ensures IsString(e) {
      var i :| 0 <= i < |Texts(pairs)| && Texts(pairs)[i] == e;
      TextsLength(pairs);
      RenderedAt(pairs, i);
      assert pairs[i] in pairs;
    }
  }

  lemma {:induction false} TextsLength(pairs: seq<(seq<Byte>, seq<Byte>)>)
    ensures |Texts(pairs)| == |pairs|
  {
    if pairs != [] { TextsLength(pairs[1..]); }
  }

  /** From a text of one entry on each line, with no name of several devices in it, the device reads
      exactly these entries, in order, then a board revision of 0xff if the text has none, and then the
      MAC, if there is one. */
  lemma SingleDeviceImage(pairs: seq<(seq<Byte>, seq<Byte>)>, mac: Option<seq<Byte>>, domain: nat, bus: nat)
    requires pairs != [] && (forall e :: e in pairs ==> WellformedPair(e.0, e.1, mac.Some?))
    requires |Packed(Texts(pairs))| < 64000 && (mac.Some? ==> |mac.value| == 6)
    requires !AnyKeyIs(pairs, Ascii("devpath")) && !AnyKeyIs(pairs, Ascii("pcie/"))
    ensures Terminated(Render(pairs))
    ensures var r := Stripped(Render(pairs), mac, domain, bus);
      && r.Nvram? && WellLaidOut(r.bytes)
      && Strings(r.bytes) == Texts(pairs)
           + (if AnyKeyIs(pairs, Ascii("boardrev")) then [] else [Ascii("boardrev=0xff")])
           + (if mac.None? then [] else [MacText(mac.value)])
  {
    Names();
    ShortText(pairs, mac.Some?);
    AnyKeyRendered(pairs, DEVPATH);
    AnyKeyRendered(pairs, PCIE);
    AnyKeyRendered(pairs, BOARDREV);
    TextsAreStrings(pairs, mac.Some?);
    TextsLength(pairs);
    hide *;
    SingleStripped(Render(pairs), Rendered(pairs), Texts(pairs), mac, domain, bus);
    ResultIsWellLaidOut(Render(pairs), mac, domain, bus);
    FinalIsRead(Texts(pairs), AnyKeyIs(pairs, Ascii("boardrev")), mac);
  }

  lemma SingleStripped(data: seq<Byte>, items: seq<Item>, es: seq<seq<Byte>>,
                       mac: Option<seq<Byte>>, domain: nat, bus: nat)
    requires Terminated(data) && (mac.Some? ==> |mac.value| == 6) && es != []
    requires Parsed(data, mac.Some?) == (items, |items|, |items|) && Kept(items) == es
    requires !AnyKey(items, |items|, DEVPATH) && !AnyKey(items, |items|, PCIE)
    ensures Stripped(data, mac, domain, bus) ==
      Nvram(Image(Packed(FinalEntries(es, AnyKey(items, |items|, BOARDREV), mac))))
  {
    hide Parsed, AnyKey, Kept, Packed, Image, FinalEntries, Terminated, ImageSize, StripV1, StripV2, AnyBoardrev;
    SingleDeviceFits(data, mac, domain, bus);
    assert items[..|items|] == items;
  }

  lemma FinalIsRead(es: seq<seq<Byte>>, boardrev: bool, mac: Option<seq<Byte>>)
    requires (forall e :: e in es ==> IsString(e)) && (mac.Some? ==> |mac.value| == 6)
    ensures Strings(Image(Packed(FinalEntries(es, boardrev, mac)))) == FinalEntries(es, boardrev, mac)
    ensures FinalEntries(es, boardrev, mac) ==
      es + (if boardrev then [] else [Ascii("boardrev=0xff")]) + (if mac.None? then [] else [MacText(mac.value)])
  {
    Names();
    if mac.Some? { MacIsRead(mac.value); }
    assert IsString(DEFAULT_BOARDREV);
    hide Ascii, MacText, Image, Packed, IsString;
    ImageIsRead(FinalEntries(es, boardrev, mac));
  }

  // ----- several devices

  /** The value of a decimal numeral. */
  function DecimalValue(s: seq<Byte>): int
    decreases |s|
  {
    if s == [] then 0 else DecimalValue(s[..|s| - 1]) * 10 + (s[|s| - 1] as int - '0' as int)
  }

  lemma {:induction false} DecimalIsRead(n: nat)
    ensures DecimalValue(Decimal(n)) == n && (|Decimal(n)| > 1 ==> Decimal(n)[0] != '0' as int)
    decreases n
  {
    if n < 10 {
      assert Decimal(n)[..0] == [];
    } else {
      DecimalIsRead(n / 10);
      assert Decimal(n)[..|Decimal(n)| - 1] == Decimal(n / 10);
      if |Decimal(n / 10)| == 1 { DecimalOfSmall(n / 10); }
    }
  }

  lemma DecimalOfSmall(n: nat)
    requires n > 0 && |Decimal(n)| == 1
    ensures Decimal(n)[0] != '0' as int
  {}

  /** The entry that gives the device at a place its id. */
  function DevpathEntry(x: Byte, express: bool, domain: nat, bus: nat): (e: seq<Byte>) {
    Ascii("devpath") + [x] + Ascii(if express then "=pcie/" else "=pci/") + Decimal(domain) + Ascii("/")
    + Decimal(bus) + Ascii("/")
  }

  /** The entries of one device, each marked with its id. */
  function Marked(x: Byte, es: seq<seq<Byte>>): (ms: seq<seq<Byte>>)
    ensures |ms| == |es| && forall i :: 0 <= i < |es| ==> ms[i] == [x] + Ascii(":") + es[i]
  {
    seq(|es|, i requires 0 <= i < |es| => [x] + Ascii(":") + es[i])
  }

  lemma {:induction false} SelectedConcat(m: Mark, a: seq<seq<Byte>>, b: seq<seq<Byte>>)
    ensures Selected(m, a + b) == Selected(m, a) + Selected(m, b)
    decreases |b|
  {
    if b == [] {
      assert a + b == a;
    } else {
      SelectedConcat(m, a, b[..|b| - 1]);
      assert (a + b)[..|a + b| - 1] == a + b[..|b| - 1];
    }
  }

  lemma {:induction false} SelectedMarked(x: Byte, es: seq<seq<Byte>>)
    requires x >= '0' as int
    ensures Selected(ById(x), Marked(x, es)) == es
    decreases |es|
  {
    if es != [] {
      var front, last := es[..|es| - 1], es[|es| - 1];
      SelectedMarked(x, front);
      var ms := Marked(x, es);
      assert ms[..|ms| - 1] == Marked(x, front);
      var e := [x] + Ascii(":") + last;
      assert e[2..] == last && e[0] == x && e[1] == 58;
      assert es == front + [last];
    }
  }

  lemma {:induction false} SelectedNone(m: Mark, es: seq<seq<Byte>>)
    requires forall e :: e in es ==> !Selects(m, e)
    ensures Selected(m, es) == []
    decreases |es|
  {
    if es != [] { SelectedNone(m, es[..|es| - 1]); }
  }

  /** Not an entry of the device with id `x`. */
  predicate Foreign(x: Byte, e: seq<Byte>) { |e| < 2 || e[0] != x || e[1] != ':' as int }

  lemma DevpathIsFound(x: Byte, express: bool, domain: nat, bus: nat)
    ensures var e := DevpathEntry(x, express, domain, bus);
      DevpathFor(e, domain, bus) && |e| >= 17 && e[7] == x && e[1] == 'e' as int
  {
    Names();
    PathText(express, domain, bus);
    DevpathShape(x, express, domain, bus, Ascii("/"));
    hide *;
    Regroup(Ascii("devpath") + [x], Ascii(if express then "=pcie/" else "=pci/"), Decimal(domain), Ascii("/"),
            Decimal(bus), Ascii("/"));
    Unfolded(x, express, domain, bus);
  }

  lemma Unfolded(x: Byte, express: bool, domain: nat, bus: nat)
    ensures DevpathEntry(x, express, domain, bus) ==
      Ascii("devpath") + [x] + Ascii(if express then "=pcie/" else "=pci/") + Decimal(domain) + Ascii("/")
      + Decimal(bus) + Ascii("/")
  {
    hide Ascii, Decimal;
  }

  lemma Regroup(p: seq<Byte>, a: seq<Byte>, b: seq<Byte>, c: seq<Byte>, d: seq<Byte>, e: seq<Byte>)
    ensures p + a + b + c + d + e == p + (a + b + c + d) + e
  {}

  lemma DevpathShape(x: Byte, express: bool, domain: nat, bus: nat, rest: seq<Byte>)
    requires |rest| == 1
    ensures var e := DEVPATH + [x] + PathOf(express, domain, bus) + rest;
      DevpathFor(e, domain, bus) && |e| >= 17 && e[7] == x && e[1] == 101
  {
    var path := PathOf(express, domain, bus);
    hide PathOf;
    var e := DEVPATH + [x] + path + rest;
    assert e[..7] == DEVPATH && e[8..] == path + rest && (path + rest)[..|path|] == path;
  }

  lemma PathText(express: bool, domain: nat, bus: nat)
    ensures PathOf(express, domain, bus) ==
      Ascii(if express then "=pcie/" else "=pci/") + Decimal(domain) + Ascii("/") + Decimal(bus)
    ensures Ascii("devpath")[1] == 'e' as int && |Ascii("/")| == 1
  {
    PathStart();
    assert Ascii("/") == [47];
    hide Decimal, Ascii;
    var p, q := [EQUALS, 112, 99, 105, 101, 47], [EQUALS, 112, 99, 105, 47];
    if express {
      assert [EQUALS, 112, 99, 105] + [101] + [47] == p;
    } else {
      assert [EQUALS, 112, 99, 105] + [] + [47] == q;
    }
  }

  lemma PathStart()
    ensures Ascii("=pcie/") == [EQUALS, 112, 99, 105, 101, 47] && Ascii("=pci/") == [EQUALS, 112, 99, 105, 47]
  {}

  lemma OneUnselected(m: Mark, e: seq<Byte>)
    requires !Selects(m, e)
    ensures Selected(m, [e]) == []
  {
    SelectedNone(m, [e]);
  }

  /** From v1 entries with the device's path first, its own entries, marked with its id, and others
      behind them, the strip leaves exactly its own, in order and without the mark. */
  lemma V1KeepsOwn(x: Byte, express: bool, domain: nat, bus: nat, own: seq<seq<Byte>>, others: seq<seq<Byte>>)
    requires x >= '0' as int && forall e :: e in others ==> Foreign(x, e)
    requires var entries := [DevpathEntry(x, express, domain, bus)] + Marked(x, own) + others; |Packed(entries)| >= 25
    ensures StripV1([DevpathEntry(x, express, domain, bus)] + Marked(x, own) + others, domain, bus) == Some(own)
  {
    var d := DevpathEntry(x, express, domain, bus);
    DevpathIsFound(x, express, domain, bus);
    SelectedMarked(x, own);
    hide DevpathEntry, Packed, Marked, Ascii;
    OwnIsSelected(x, d, Marked(x, own), own, others);
    var entries := [d] + Marked(x, own) + others;
    NoOffset(entries);
    assert entries[0] == d;
    hide Selected, DevpathFor;
  }

  lemma OwnIsSelected(x: Byte, d: seq<Byte>, marked: seq<seq<Byte>>, own: seq<seq<Byte>>, others: seq<seq<Byte>>)
    requires |d| >= 2 && d[1] != COLON && Selected(ById(x), marked) == own && forall e :: e in others ==> Foreign(x, e)
    ensures Selected(ById(x), [d] + marked + others) == own
  {
    var m := ById(x);
    forall e | e in others ensures !Selects(m, e) { assert Foreign(x, e); }
    hide Selected;
    OneUnselected(m, d);
    SelectedNone(m, others);
    SelectedConcat(m, [d] + marked, others);
    SelectedConcat(m, [d], marked);
  }

  /** Without the device's path nothing is left. */
  lemma V1NeedsDevpath(entries: seq<seq<Byte>>, domain: nat, bus: nat)
    requires forall e :: e in entries ==> !StartsWith(e, Ascii("devpath"))
    ensures StripV1(entries, domain, bus) == None
  {
    NoDevpath(entries, domain, bus, 0);
    hide VirtualId;
  }

  lemma {:induction false} NoDevpath(entries: seq<seq<Byte>>, domain: nat, bus: nat, k: nat)
    requires k <= |entries| && forall e :: e in entries ==> !StartsWith(e, Ascii("devpath"))
    ensures VirtualId(entries, domain, bus, k) == None
    decreases |entries| - k
  {
    if k < |entries| {
      Names();
      PrefixIsStart(entries[k], DEVPATH);
      assert entries[k] in entries;
      NoDevpath(entries, domain, bus, k + 1);
    }
  }

  /** A device's path is found behind entries without one exactly when more than 19 bytes of the text are
      left from it on. */
  lemma V1FindsPathIff(before: seq<seq<Byte>>, x: Byte, express: bool, domain: nat, bus: nat, behind: seq<seq<Byte>>)
    requires forall e :: e in before ==> !StartsWith(e, Ascii("devpath"))
    ensures var tail := [DevpathEntry(x, express, domain, bus)] + behind;
      VirtualId(before + tail, domain, bus, 0) == if |Packed(tail)| > 19 then Some(x) else None
  {
    var d := DevpathEntry(x, express, domain, bus);
    var tail := [d] + behind;
    var entries, j := before + tail, |before|;
    DevpathIsFound(x, express, domain, bus);
    Names();
    hide DevpathEntry, Ascii, Packed, StartsWith;
    forall i | 0 <= i < j ensures !DevpathFor(entries[i], domain, bus) {
      assert entries[i] in before;
      PrefixIsStart(entries[i], DEVPATH);
    }
    hide DevpathFor;
    SkipTo(entries, domain, bus, 0, j);
    PackedConcat(before, tail);
    assert entries[..j] == before && entries[j] == d;
  }

  /** The shortest path, as the last entry, has 19 bytes with its NUL: it is missed, and nothing is left. */
  lemma LastPathIsMissed(before: seq<seq<Byte>>, x: Byte)
    requires forall e :: e in before ==> !StartsWith(e, Ascii("devpath"))
    ensures StripV1(before + [Ascii("devpath") + [x] + Ascii("=pcie/0/1/")], 0, 1) == None
  {
    var d := DevpathEntry(x, true, 0, 1);
    ShortestPath(x);
    V1FindsPathIff(before, x, true, 0, 1, []);
    PackedOne(d);
    hide Packed, DevpathEntry, VirtualId, Ascii, StartsWith;
    assert [d] + [] == [d];
  }

  lemma ShortestPath(x: Byte)
    ensures DevpathEntry(x, true, 0, 1) == Ascii("devpath") + [x] + Ascii("=pcie/0/1/")
    ensures |DevpathEntry(x, true, 0, 1)| == 18
  {
    assert Decimal(0) == Ascii("0") && Decimal(1) == Ascii("1");
    assert Ascii("=pcie/") + Ascii("0") + Ascii("/") + Ascii("1") + Ascii("/") == Ascii("=pcie/0/1/");
  }

  lemma {:induction false} SkipTo(entries: seq<seq<Byte>>, domain: nat, bus: nat, k: nat, j: nat)
    requires k <= j < |entries| && forall i :: k <= i < j ==> !DevpathFor(entries[i], domain, bus)
    ensures VirtualId(entries, domain, bus, k) ==
      if Offset(entries, j) + 19 >= |Packed(entries)| then None else VirtualId(entries, domain, bus, j)
    decreases j - k
  {
    hide DevpathFor, Packed;
    if k < j {
      SkipTo(entries, domain, bus, k + 1, j);
      OffsetGrows(entries, k, j);
    }
  }

  lemma OffsetGrows(entries: seq<seq<Byte>>, k: nat, j: nat)
    requires k <= j <= |entries|
    ensures Offset(entries, k) <= Offset(entries, j)
  {
    hide Packed;
    PackedConcat(entries[..k], entries[k..j]);
    assert entries[..j] == entries[..k] + entries[k..j];
  }

  /** The path in front of a device's v2 entries. */
  lemma PathIsRead(domain: nat, bus: nat)
    ensures DevicePath(domain, bus) == Ascii("pcie/") + Decimal(domain) + Ascii("/") + Decimal(bus) + Ascii("/")
  {
    Names();
  }

  /** From v2 entries with the device's path in front of its own, the strip leaves exactly these. */
  lemma V2KeepsOwn(domain: nat, bus: nat, own: seq<seq<Byte>>, others: seq<seq<Byte>>)
    requires forall e :: e in others ==> !StartsWith(e, DevicePath(domain, bus))
    requires own != []
    ensures StripV2(Prefixed(DevicePath(domain, bus), own) + others, domain, bus) == Some(own)
  {
    var path := DevicePath(domain, bus);
    hide DevicePath;
    var entries := Prefixed(path, own) + others;
    SelectedPrefixed(path, own);
    forall e | e in others ensures !Selects(ByPath(path), e) { PrefixIsStart(e, path); }
    SelectedNone(ByPath(path), others);
    SelectedConcat(ByPath(path), Prefixed(path, own), others);
    PackedFirst(entries);
    assert entries[0] == path + own[0];
    assert own + [] == own;
  }

  function Prefixed(path: seq<Byte>, es: seq<seq<Byte>>): (ms: seq<seq<Byte>>)
    ensures |ms| == |es| && forall i :: 0 <= i < |es| ==> ms[i] == path + es[i]
  {
    seq(|es|, i requires 0 <= i < |es| => path + es[i])
  }

  lemma {:induction false} SelectedPrefixed(path: seq<Byte>, es: seq<seq<Byte>>)
    ensures Selected(ByPath(path), Prefixed(path, es)) == es
    decreases |es|
  {
    if es != [] {
      var front, last := es[..|es| - 1], es[|es| - 1];
      SelectedPrefixed(path, front);
      var ms := Prefixed(path, es);
      assert ms[..|ms| - 1] == Prefixed(path, front);
      assert (path + last)[..|path|] == path && (path + last)[|path|..] == last;
      assert es == front + [last];
    }
  }
}
