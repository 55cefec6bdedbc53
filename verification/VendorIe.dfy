/** The vendor information elements of a virtual interface (wifi-bcm4350/src/cfg80211.c:4786-5020):
    the saved copy per management frame type against what the firmware was told. Elements have the
    id/length/body form of section 9.4.2.1 of IEEE Std 802.11-2016. */
module VendorIe {
  import opened Basics

  // ----- elements and their bytes

  datatype RawElement = Element(id: Byte, body: seq<Byte>)
  type Element = e: RawElement | |e.body| < 256 witness Element(0, [])

  function Encode(e: Element): (s: seq<Byte>)
    ensures |s| == |e.body| + 2
  {
    [e.id, |e.body|] + e.body
  }

  function EncodeAll(es: seq<Element>): (s: seq<Byte>) {
    if es == [] then [] else Encode(es[0]) + EncodeAll(es[1..])
  }

  lemma {:induction false} EncodeConcat(a: seq<Element>, b: seq<Element>)
    ensures EncodeAll(a + b) == EncodeAll(a) + EncodeAll(b)
  {
    if a == [] {
      assert a + b == b;
    } else {
      EncodeConcat(a[1..], b);
      assert (a + b)[1..] == a[1..] + b;
    }
  }

  /** Elements can be told apart in a stream: the length byte says where one ends. */
  lemma FirstElement(e: Element, d: Element, s: seq<Byte>, t: seq<Byte>)
    requires Encode(e) + s == Encode(d) + t
    ensures e == d && s == t
  {
    var x := Encode(e) + s;
    assert x[0] == e.id == d.id;
    assert x[1] == |e.body| == |d.body|;
    assert x[2..|e.body| + 2] == e.body && x[2..|d.body| + 2] == d.body;
    assert x[|e.body| + 2..] == s && x[|d.body| + 2..] == t;
  }

  /** Equal bytes are equal elements, which is what the memcmp shortcut relies on. */
  lemma {:induction false} EncodeInjective(a: seq<Element>, b: seq<Element>)
    requires EncodeAll(a) == EncodeAll(b)
    ensures a == b
  {
    if a != [] && b != [] {
      FirstElement(a[0], b[0], EncodeAll(a[1..]), EncodeAll(b[1..]));
      EncodeInjective(a[1..], b[1..]);
      assert a == [a[0]] + a[1..] && b == [b[0]] + b[1..];
    }
  }

  /** Any bytes are whole elements, as many as there are, and a rest that is not one. */
  function Whole(s: seq<Byte>): (r: (seq<Element>, seq<Byte>))
    ensures |r.1| < 2 || |r.1| < 2 + r.1[1] as int
    ensures |r.1| <= |s|
    decreases |s|
  {
    if |s| < 2 || |s| < 2 + s[1] as int then ([], s)
    else
      var n := 2 + s[1] as int;
      var (es, rest) := Whole(s[n..]);
      ([Element(s[0], s[2..n])] + es, rest)
  }

  lemma {:induction false} WholeSplits(s: seq<Byte>)
    ensures EncodeAll(Whole(s).0) + Whole(s).1 == s
    decreases |s|
  {
    if |s| >= 2 && |s| >= 2 + s[1] as int {
      var n := 2 + s[1] as int;
      WholeSplits(s[n..]);
      var e: Element := Element(s[0], s[2..n]);
      var (es, rest) := Whole(s[n..]);
      assert s[..n] == Encode(e);
      hide Whole, Encode;
      EncodeCons(e, es);
      assert s == s[..n] + s[n..];
    }
  }

  lemma EncodeCons(e: Element, es: seq<Element>)
    ensures EncodeAll([e] + es) == Encode(e) + EncodeAll(es)
  {
    hide Encode;
    assert ([e] + es)[1..] == es;
  }

  /** Encoded elements are found again, with nothing left over. */
  lemma {:induction false} WholeRoundTrip(es: seq<Element>)
    ensures Whole(EncodeAll(es)) == (es, [])
  {
    if es != [] {
      WholeRoundTrip(es[1..]);
      var s, n := EncodeAll(es), 2 + |es[0].body|;
      assert s == Encode(es[0]) + EncodeAll(es[1..]);
      assert s[0] == es[0].id && s[1] == |es[0].body| && s[2..n] == es[0].body;
      assert s[n..] == EncodeAll(es[1..]);
      hide Encode, EncodeAll;
      assert es == [es[0]] + es[1..];
    }
  }

  // ----- which elements are kept

  const VENDOR_SPECIFIC: Byte := 221
  const WPA_OUI: seq<Byte> := [0x00, 0x50, 0xf2]
  const PARSE_LIMIT: nat := 5
  const IE_MAX_LEN: nat := 512
  const EXTRA_BUF_MAX: nat := 2048
  const CMD_HDR: nat := 12

  /** A vendor element longer than its OUI and type, and neither WPA nor WME. */
  predicate Storable(e: Element) {
    && e.id == VENDOR_SPECIFIC && |e.body| >= 5
    && !(e.body[..3] == WPA_OUI && (e.body[3] == 1 || e.body[3] == 2))
  }

  /** The first `room` storable elements. */
  function Pick(es: seq<Element>, room: nat): (ps: seq<Element>)
    ensures |ps| <= room && forall p :: p in ps ==> Storable(p)
  {
    if es == [] || room == 0 then []
    else if Storable(es[0]) then [es[0]] + Pick(es[1..], room - 1)
    else Pick(es[1..], room)
  }

  /** The longest prefix the save loop accepts: it asks for len + 12 bytes and takes len + 14. */
  function Fit(ps: seq<Element>, remained: int): (fs: seq<Element>)
    ensures fs <= ps
  {
    if ps == [] || remained < |ps[0].body| + CMD_HDR then []
    else [ps[0]] + Fit(ps[1..], remained - (|ps[0].body| + 2 + CMD_HDR))
  }

  /** What is left behind the whole elements looks like an element to be kept, or is too short to tell:
      examining or copying it reads past the end. */
  predicate BadRest(j: seq<Byte>) {
    || |j| < 2
    || (j[0] == VENDOR_SPECIFIC && j[1] >= 5 && (|j| < 6 || !(j[2..5] == WPA_OUI && (j[5] == 1 || j[5] == 2))))
  }

  /** The walk over the bytes reads past their end: it gets to the rest, because fewer than five
      elements were kept before and more than two bytes are left, and the rest is a bad one. */
  predicate WalksPast(s: seq<Byte>) {
    var (es, rest) := Whole(s);
    |Pick(es, PARSE_LIMIT)| < PARSE_LIMIT && (|rest| > 2 || (es == [] && rest != [])) && BadRest(rest)
  }

  /** Two such buffers: a single byte, and a vendor element cut off behind its type. */
  lemma CutOffElements()
    ensures WalksPast([VENDOR_SPECIFIC]) && WalksPast([VENDOR_SPECIFIC, 5, 1, 2, 3, 4])
  {}

  /** What a saved list always is. */
  ghost predicate Stored(es: seq<Element>) {
    |es| <= PARSE_LIMIT && (forall e :: e in es ==> Storable(e)) && Fit(es, IE_MAX_LEN) == es
  }

  /** Re-parsing stored bytes gives back exactly what was stored. */
  lemma {:induction false} PickStored(es: seq<Element>, room: nat)
    requires |es| <= room && forall e :: e in es ==> Storable(e)
    ensures Pick(es, room) == es
  {
    if es != [] { PickStored(es[1..], room - 1); }
  }

  lemma {:induction false} FitIdempotent(ps: seq<Element>, remained: int)
    ensures Fit(Fit(ps, remained), remained) == Fit(ps, remained)
  {
    if ps != [] && remained >= |ps[0].body| + CMD_HDR {
      var left := remained - (|ps[0].body| + 2 + CMD_HDR);
      FitIdempotent(ps[1..], left);
      assert Fit(ps, remained)[1..] == Fit(ps[1..], left);
    }
  }

  /** Accepted elements, each behind a command header, need at most two bytes beyond the budget. */
  lemma {:induction false} FitBudget(ps: seq<Element>, remained: int)
    requires Fit(ps, remained) == ps && remained >= -2
    ensures |EncodeAll(ps)| + CMD_HDR * |ps| <= remained + 2
  {
    if ps != [] { FitBudget(ps[1..], remained - (|ps[0].body| + 2 + CMD_HDR)); }
  }

  lemma FittedIsStored(es: seq<Element>)
    ensures Stored(Fit(Pick(es, PARSE_LIMIT), IE_MAX_LEN))
  {
    var ps := Pick(es, PARSE_LIMIT);
    FitIdempotent(ps, IE_MAX_LEN);
    assert forall e :: e in Fit(ps, IE_MAX_LEN) ==> e in ps;
  }

  // ----- the command stream

  const BEACON: nat := 0x1
  const PRBRSP: nat := 0x2
  const ASSOCRSP: nat := 0x4
  const PRBREQ: nat := 0x10
  const ASSOCREQ: nat := 0x20
  const FLAGS: set<nat> := {BEACON, PRBRSP, ASSOCRSP, PRBREQ, ASSOCREQ}

  const ADD: seq<Byte> := [97, 100, 100, 0]   // "add"
  const DEL: seq<Byte> := [100, 101, 108, 0]  // "del"

  datatype Command = Command(add: bool, flag: nat, e: Element)

  /** Verb, count one, frame type, element; all flags used fit the low byte. */
  function EncodeCommand(c: Command): (s: seq<Byte>)
    requires c.flag < 256
    ensures |s| == CMD_HDR + |c.e.body| + 2
  {
    (if c.add then ADD else DEL) + [1, 0, 0, 0] + [c.flag, 0, 0, 0] + Encode(c.e)
  }

  ghost predicate FlagsOk(cs: seq<Command>) { forall c :: c in cs ==> c.flag < 256 }

  function EncodeCommands(cs: seq<Command>): (s: seq<Byte>)
    requires FlagsOk(cs)
  {
    if cs == [] then [] else EncodeCommand(cs[0]) + EncodeCommands(cs[1..])
  }

  /** How the firmware reads the stream. */
  function DecodeCommands(s: seq<Byte>): (r: Option<seq<Command>>)
    decreases |s|
  {
    if s == [] then Some([])
    else if |s| < CMD_HDR + 2 || (s[..4] != ADD && s[..4] != DEL) then None
    else if s[4..8] != [1, 0, 0, 0] || s[9..12] != [0, 0, 0] then None
    else
      var n := s[13] as int;
      if |s| < CMD_HDR + 2 + n then None
      else
        match DecodeCommands(s[CMD_HDR + 2 + n..])
        case None => None
        case Some(cs) => Some([Command(s[..4] == ADD, s[8], Element(s[12], s[14..14 + n]))] + cs)
  }

  lemma DecodeOne(c: Command, rest: seq<Byte>)
    requires c.flag < 256
    ensures var s := EncodeCommand(c) + rest;
      DecodeCommands(s) == match DecodeCommands(rest) case None => None case Some(cs) => Some([c] + cs)
  {
    var s := EncodeCommand(c) + rest;
    assert s[..4] == if c.add then ADD else DEL;
    assert s[4..8] == [1, 0, 0, 0] && s[8] == c.flag && s[9..12] == [0, 0, 0];
    assert s[12] == c.e.id && s[13] == |c.e.body|;
    assert s[14..14 + |c.e.body|] == c.e.body;
    assert s[CMD_HDR + 2 + |c.e.body|..] == rest;
  }

  /** The firmware reads exactly the commands the driver wrote. */
  lemma {:induction false} CommandsRoundTrip(cs: seq<Command>)
    requires FlagsOk(cs)
    ensures DecodeCommands(EncodeCommands(cs)) == Some(cs)
  {
    if cs != [] {
      CommandsRoundTrip(cs[1..]);
      DecodeOne(cs[0], EncodeCommands(cs[1..]));
      hide *;
      assert cs == [cs[0]] + cs[1..];
    }
  }

  /** And whatever bytes it can read are those of the commands it reads. */
  lemma {:induction false} DecodedIsEncoded(s: seq<Byte>)
    requires DecodeCommands(s).Some?
    ensures var cs := DecodeCommands(s).value; FlagsOk(cs) && EncodeCommands(cs) == s
    decreases |s|
  {
    if s == [] {
      NoCommands(s);
    } else {
      hide *;
      var c, n := ReadOne(s);
      DecodedIsEncoded(s[n..]);
      CommandsCons(c, DecodeCommands(s[n..]).value);
      assert s == s[..n] + s[n..];
    }
  }

  lemma ReadOne(s: seq<Byte>) returns (c: Command, n: nat)
    requires s != [] && DecodeCommands(s).Some?
    ensures 0 < n <= |s| && c.flag < 256 && EncodeCommand(c) == s[..n] && DecodeCommands(s[n..]).Some?
    ensures DecodeCommands(s).value == [c] + DecodeCommands(s[n..]).value
  {
    DecodeUnfolds(s);
    hide *;
    n := 14 + s[13] as int;
    c := Command(s[..4] == ADD, s[8], Element(s[12], s[14..n]));
    ReadCommand(s, c, n);
  }

  lemma NoCommands(s: seq<Byte>)
    requires s == []
    ensures DecodeCommands(s) == Some([]) && EncodeCommands([]) == s
  {}

  lemma DecodeUnfolds(s: seq<Byte>)
    requires s != [] && DecodeCommands(s).Some?
    ensures |s| >= 14 && (s[..4] == ADD || s[..4] == DEL) && s[4..8] == [1, 0, 0, 0] && s[9..12] == [0, 0, 0]
    ensures var n := 14 + s[13] as int;
      && |s| >= n && DecodeCommands(s[n..]).Some?
      && DecodeCommands(s).value ==
           [Command(s[..4] == ADD, s[8], Element(s[12], s[14..n]))] + DecodeCommands(s[n..]).value
  {}

  lemma ReadCommand(s: seq<Byte>, c: Command, n: nat)
    requires |s| >= n >= 14 && s[13] == n - 14 && (s[..4] == ADD || s[..4] == DEL)
    requires s[4..8] == [1, 0, 0, 0] && s[9..12] == [0, 0, 0]
    requires c == Command(s[..4] == ADD, s[8], Element(s[12], s[14..n]))
    ensures EncodeCommand(c) == s[..n]
  {
    ReadElement(s, n);
    ReadFlag(s);
    hide Encode;
    Quarters(s, n);
  }

  lemma ReadElement(s: seq<Byte>, n: nat)
    requires |s| >= n >= 14 && s[13] == n - 14
    ensures Encode(Element(s[12], s[14..n])) == s[12..n]
  {}

  lemma ReadFlag(s: seq<Byte>)
    requires |s| >= 12 && s[9..12] == [0, 0, 0]
    ensures s[8..12] == [s[8], 0, 0, 0]
  {
    assert s[8..12] == [s[8]] + s[9..12];
  }

  lemma Quarters(s: seq<Byte>, n: nat)
    requires |s| >= n >= 14
    ensures s[..n] == s[..4] + s[4..8] + s[8..12] + s[12..n]
  {}

  lemma CommandsCons(c: Command, cs: seq<Command>)
    requires c.flag < 256 && FlagsOk(cs)
    ensures FlagsOk([c] + cs) && EncodeCommands([c] + cs) == EncodeCommand(c) + EncodeCommands(cs)
  {
    hide EncodeCommand;
    assert ([c] + cs)[1..] == cs;
  }

  lemma {:induction false} CommandsConcat(a: seq<Command>, b: seq<Command>)
    requires FlagsOk(a) && FlagsOk(b)
    ensures EncodeCommands(a + b) == EncodeCommands(a) + EncodeCommands(b)
  {
    if a == [] {
      assert a + b == b;
    } else {
      hide EncodeCommands, EncodeCommand;
      var c, rest := a[0], a[1..];
      assert a == [c] + rest && a + b == [c] + (rest + b);
      CommandsConcat(rest, b);
      CommandsCons(c, rest);
      CommandsCons(c, rest + b);
    }
  }

  /** What the firmware holds, per frame type. */
  type Held = map<nat, multiset<Element>>

  function Apply(fw: Held, c: Command): Held {
    var held := if c.flag in fw then fw[c.flag] else multiset{};
    fw[c.flag := if c.add then held + multiset{c.e} else held - multiset{c.e}]
  }

  function Execute(fw: Held, cs: seq<Command>): Held
    decreases |cs|
  {
    if cs == [] then fw else Execute(Apply(fw, cs[0]), cs[1..])
  }

  function Commands(add: bool, flag: nat, es: seq<Element>): (cs: seq<Command>)
    ensures |cs| == |es| && forall i :: 0 <= i < |cs| ==> cs[i] == Command(add, flag, es[i])
  {
    seq(|es|, i requires 0 <= i < |es| => Command(add, flag, es[i]))
  }

  lemma {:induction false} CommandsLength(add: bool, flag: nat, es: seq<Element>)
    requires flag < 256
    ensures |EncodeCommands(Commands(add, flag, es))| == |EncodeAll(es)| + CMD_HDR * |es|
  {
    if es != [] {
      CommandsLength(add, flag, es[1..]);
      assert Commands(add, flag, es)[1..] == Commands(add, flag, es[1..]);
    }
  }

  lemma {:induction false} ExecuteConcat(fw: Held, a: seq<Command>, b: seq<Command>)
    ensures Execute(fw, a + b) == Execute(Execute(fw, a), b)
    decreases |a|
  {
    if a == [] {
      assert a + b == b;
    } else {
      assert (a + b)[1..] == a[1..] + b;
      ExecuteConcat(Apply(fw, a[0]), a[1..], b);
    }
  }

  lemma HeadAndTail(es: seq<Element>)
    requires es != []
    ensures multiset(es) == multiset{es[0]} + multiset(es[1..])
  {
    assert es == [es[0]] + es[1..];
  }

  lemma Overwrite(fw: Held, flag: nat, a: multiset<Element>, b: multiset<Element>)
    ensures fw[flag := a][flag := b] == fw[flag := b]
  {}

  lemma Regroup(m: multiset<Element>, h: multiset<Element>, t: multiset<Element>)
    ensures m + h + t == m + (h + t) && m - h - t == m - (h + t)
  {}

  /** The outcome of adding, or of deleting, a list of elements. */
  function Changed(m: multiset<Element>, add: bool, d: multiset<Element>): multiset<Element> {
    if add then m + d else m - d
  }

  lemma {:induction false} ExecuteAll(fw: Held, add: bool, flag: nat, es: seq<Element>)
    requires flag in fw
    ensures Execute(fw, Commands(add, flag, es)) == fw[flag := Changed(fw[flag], add, multiset(es))]
    decreases |es|
  {
    if es == [] {
      assert Commands(add, flag, es) == [];
      assert Changed(fw[flag], add, multiset(es)) == fw[flag];
      assert fw[flag := fw[flag]] == fw;
    } else {
      HeadAndTail(es);
      UnfoldExecute(fw, add, flag, es);
      var h, t := multiset{es[0]}, multiset(es[1..]);
      var fw' := fw[flag := Changed(fw[flag], add, h)];
      ExecuteAll(fw', add, flag, es[1..]);
      Regroup(fw[flag], h, t);
      Overwrite(fw, flag, fw'[flag], Changed(fw'[flag], add, t));
    }
  }

  lemma UnfoldExecute(fw: Held, add: bool, flag: nat, es: seq<Element>)
    requires flag in fw && es != []
    ensures Execute(fw, Commands(add, flag, es)) ==
            Execute(fw[flag := Changed(fw[flag], add, multiset{es[0]})], Commands(add, flag, es[1..]))
  {
    assert Commands(add, flag, es)[1..] == Commands(add, flag, es[1..]);
  }

  // ----- one call

  datatype Err = Ok | NotPermitted | NoSpace | Failed | PastEnd

  /** The saved elements per frame type, and what the firmware holds. */
  datatype Ies = Ies(saved: map<nat, seq<Element>>, fw: Held)

  ghost predicate Shape(s: Ies) {
    s.saved.Keys == FLAGS && s.fw.Keys == FLAGS && forall f :: f in FLAGS ==> Stored(s.saved[f])
  }

  ghost predicate AgreesOn(s: Ies, f: nat) {
    f in s.saved && f in s.fw && s.fw[f] == multiset(s.saved[f])
  }

  /** The cache tells the truth about the firmware. */
  ghost predicate Agrees(s: Ies) {
    Shape(s) && forall f :: f in FLAGS ==> AgreesOn(s, f)
  }

  /** The commands of a call that does not take the shortcut. */
  function Update(old_: seq<Element>, flag: nat, ps: seq<Element>): (cs: seq<Command>)
    ensures flag < 256 ==> FlagsOk(cs)
  {
    Commands(false, flag, old_) + Commands(true, flag, Fit(ps, IE_MAX_LEN))
  }

  /** The parsed elements are, byte for byte, the saved ones. */
  predicate Unchanged(old_: seq<Element>, ps: seq<Element>) {
    old_ != [] && ps != [] && EncodeAll(ps) == EncodeAll(old_)
  }

  /** brcmf_vif_set_mgmt_ie with `len` bytes that hold the elements `es`; `fwOk` says whether the
      firmware takes the commands. The firmware's side is what it makes of the bytes sent. */
  ghost function SetMgmtIe(s: Ies, flag: nat, len: nat, es: seq<Element>, fwOk: bool): (r: (Ies, Err))
    requires Shape(s)
  {
    if flag !in FLAGS then (s, NotPermitted)
    else if len > IE_MAX_LEN then (s, NoSpace)
    else
      var ps := Pick(es, PARSE_LIMIT);
      if Unchanged(s.saved[flag], ps) then (s, Ok) else Replace(s, flag, ps, fwOk)
  }

  /** Replacing what is saved by what fits of `ps`, and telling the firmware if anything changed. */
  ghost function Replace(s: Ies, flag: nat, ps: seq<Element>, fwOk: bool): (r: (Ies, Err))
    requires flag in FLAGS && flag in s.saved
  {
    var cs := Update(s.saved[flag], flag, ps);
    var saved := s.saved[flag := Fit(ps, IE_MAX_LEN)];
    if cs == [] then (Ies(saved, s.fw), Ok)
    else if !fwOk then (Ies(saved, s.fw), Failed)
    else (Ies(saved, Receive(s.fw, EncodeCommands(cs))), Ok)
  }

  function Receive(fw: Held, bytes: seq<Byte>): Held {
    match DecodeCommands(bytes)
    case None => fw
    case Some(cs) => Execute(fw, cs)
  }

  /** The delete and add commands of one call fit the 2048-byte buffer, by nearly half. */
  lemma CommandsFitBuffer(old_: seq<Element>, flag: nat, es: seq<Element>)
    requires flag < 256 && Stored(old_)
    ensures |EncodeCommands(Update(old_, flag, Pick(es, PARSE_LIMIT)))| <= 2 * (IE_MAX_LEN + 2) <= 2048 <= EXTRA_BUF_MAX
  {
    var fs := Fit(Pick(es, PARSE_LIMIT), IE_MAX_LEN);
    FittedIsStored(es);
    FitBudget(old_, IE_MAX_LEN);
    FitBudget(fs, IE_MAX_LEN);
    CommandsConcat(Commands(false, flag, old_), Commands(true, flag, fs));
    CommandsLength(false, flag, old_);
    CommandsLength(true, flag, fs);
  }

  /** Whatever the firmware held, the commands take away what was saved and add what is new. */
  lemma UpdateEffect(fw: Held, flag: nat, old_: seq<Element>, ps: seq<Element>)
    requires flag < 256 && flag in fw
    ensures Receive(fw, EncodeCommands(Update(old_, flag, ps))) ==
            fw[flag := fw[flag] - multiset(old_) + multiset(Fit(ps, IE_MAX_LEN))]
  {
    var fs := Fit(ps, IE_MAX_LEN);
    var dels, adds := Commands(false, flag, old_), Commands(true, flag, fs);
    CommandsRoundTrip(dels + adds);
    hide Fit, Execute, DecodeCommands, EncodeCommands, Commands;
    ExecuteConcat(fw, dels, adds);
    ExecuteAll(fw, false, flag, old_);
    var rest := fw[flag] - multiset(old_);
    ExecuteAll(fw[flag := rest], true, flag, fs);
    Overwrite(fw, flag, rest, rest + multiset(fs));
  }

  /** From agreement, they replace the old elements by the new. */
  lemma UpdateReplaces(fw: Held, flag: nat, old_: seq<Element>, ps: seq<Element>)
    requires flag < 256 && flag in fw && fw[flag] == multiset(old_)
    ensures Receive(fw, EncodeCommands(Update(old_, flag, ps))) == fw[flag := multiset(Fit(ps, IE_MAX_LEN))]
  {
    hide Fit, EncodeCommands, Update, Receive;
    UpdateEffect(fw, flag, old_, ps);
    assert fw[flag] - multiset(old_) + multiset(Fit(ps, IE_MAX_LEN)) == multiset(Fit(ps, IE_MAX_LEN));
  }

  /** The shortcut skips only calls that would change nothing. */
  lemma ShortcutIsSound(s: Ies, flag: nat, ps: seq<Element>)
    requires Agrees(s) && flag in FLAGS && EncodeAll(ps) == EncodeAll(s.saved[flag])
    ensures flag < 256
    ensures s.saved[flag := Fit(ps, IE_MAX_LEN)] == s.saved
    ensures Receive(s.fw, EncodeCommands(Update(s.saved[flag], flag, ps))) == s.fw
  {
    hide *;
    AgreesAt(s, flag);
    EncodeInjective(ps, s.saved[flag]);
    UpdateReplaces(s.fw, flag, s.saved[flag], ps);
    StoredFits(s.saved[flag]);
    assert s.saved[flag := s.saved[flag]] == s.saved;
    assert s.fw[flag := s.fw[flag]] == s.fw;
  }

  lemma ShapeAt(s: Ies, flag: nat)
    requires Shape(s) && flag in FLAGS
    ensures flag < 256 && flag in s.saved && flag in s.fw && Stored(s.saved[flag])
  {
    hide Stored;
  }

  lemma AgreesAt(s: Ies, flag: nat)
    requires Agrees(s) && flag in FLAGS
    ensures flag < 256 && flag in s.saved && flag in s.fw
    ensures Stored(s.saved[flag]) && s.fw[flag] == multiset(s.saved[flag])
  {
    hide Stored;
  }

  lemma StoredFits(es: seq<Element>)
    requires Stored(es)
    ensures Fit(es, IE_MAX_LEN) == es
  {}

  /** The firmware holds nothing for the frame type that is not saved. */
  ghost predicate NothingExtra(s: Ies, f: nat) {
    f in s.saved && f in s.fw && s.fw[f] - multiset(s.saved[f]) == multiset{}
  }

  lemma ReplaceShape(s: Ies, flag: nat, fs: seq<Element>, m: multiset<Element>)
    requires Shape(s) && flag in FLAGS && Stored(fs)
    ensures Shape(Ies(s.saved[flag := fs], s.fw)) && Shape(Ies(s.saved[flag := fs], s.fw[flag := m]))
  {
    hide Stored;
  }

  lemma Absorbed(h: multiset<Element>, old_: multiset<Element>, m: multiset<Element>)
    ensures h - old_ + m == m <==> h - old_ == multiset{}
  {
    if h - old_ + m == m {
      forall e ensures (h - old_)[e] == 0 { assert (h - old_ + m)[e] == (h - old_)[e] + m[e]; }
    }
  }

  /** The state after a call that replaces. */
  lemma ReplaceResult(s: Ies, flag: nat, ps: seq<Element>, fwOk: bool)
    requires Shape(s) && flag in FLAGS
    ensures flag < 256 && flag in s.saved && flag in s.fw
    ensures var old_, fs := s.saved[flag], Fit(ps, IE_MAX_LEN);
      Replace(s, flag, ps, fwOk).0 ==
      Ies(s.saved[flag := fs],
          if fwOk && Update(old_, flag, ps) != [] then s.fw[flag := s.fw[flag] - multiset(old_) + multiset(fs)]
          else s.fw)
  {
    ShapeAt(s, flag);
    hide Fit, Stored, EncodeCommands, Receive, Update, Shape;
    UpdateEffect(s.fw, flag, s.saved[flag], ps);
  }

  /** When the frame type agrees afterwards, by what was sent. */
  lemma SentAgreesIff(s: Ies, flag: nat, fs: seq<Element>)
    requires flag in s.saved && flag in s.fw
    ensures var m := s.fw[flag] - multiset(s.saved[flag]) + multiset(fs);
      AgreesOn(Ies(s.saved[flag := fs], s.fw[flag := m]), flag) <==> NothingExtra(s, flag)
    ensures AgreesOn(Ies(s.saved[flag := fs], s.fw), flag) <==> s.fw[flag] == multiset(fs)
    ensures s.saved[flag] == [] ==> (NothingExtra(s, flag) <==> s.fw[flag] == multiset{})
  {
    Absorbed(s.fw[flag], multiset(s.saved[flag]), multiset(fs));
    if s.saved[flag] == [] { assert s.fw[flag] - multiset(s.saved[flag]) == s.fw[flag]; }
  }

  lemma EmptyUpdate(old_: seq<Element>, flag: nat, ps: seq<Element>)
    ensures Update(old_, flag, ps) == [] <==> old_ == [] && Fit(ps, IE_MAX_LEN) == []
  {}

  /** A call that replaces: the frame type agrees afterwards if and only if nothing extra was held and
      the commands were taken, or they were refused and what is saved now is what the firmware holds. */
  lemma ReplaceAgreesIff(s: Ies, flag: nat, ps: seq<Element>, fwOk: bool, f: nat)
    requires Shape(s) && flag in FLAGS && Stored(Fit(ps, IE_MAX_LEN)) && f in FLAGS
    ensures flag in s.saved && flag in s.fw && Shape(Replace(s, flag, ps, fwOk).0)
    ensures AgreesOn(Replace(s, flag, ps, fwOk).0, f) <==>
            if f != flag then AgreesOn(s, f)
            else if fwOk || Update(s.saved[flag], flag, ps) == [] then NothingExtra(s, flag)
            else s.fw[flag] == multiset(Fit(ps, IE_MAX_LEN))
  {
    hide Fit, Stored, Replace, Update, NothingExtra;
    ShapeAt(s, flag);
    ShapeAt(s, f);
    var old_, fs := s.saved[flag], Fit(ps, IE_MAX_LEN);
    ReplaceResult(s, flag, ps, fwOk);
    EmptyUpdate(old_, flag, ps);
    SentAgreesIff(s, flag, fs);
    ReplaceShape(s, flag, fs, s.fw[flag] - multiset(old_) + multiset(fs));
    hide Shape;
  }

  /** Exactly when a frame type agrees after a call, from any state. A skipped call repairs nothing. */
  lemma CallAgreesIff(s: Ies, flag: nat, len: nat, es: seq<Element>, fwOk: bool, f: nat)
    requires Shape(s) && f in FLAGS
    ensures f in s.saved && f in s.fw && Shape(SetMgmtIe(s, flag, len, es, fwOk).0)
    ensures var s' := SetMgmtIe(s, flag, len, es, fwOk).0; var ps := Pick(es, PARSE_LIMIT);
      AgreesOn(s', f) <==>
        if f != flag || len > IE_MAX_LEN || Unchanged(s.saved[f], ps) then AgreesOn(s, f)
        else if fwOk || Update(s.saved[f], f, ps) == [] then NothingExtra(s, f)
        else s.fw[f] == multiset(Fit(ps, IE_MAX_LEN))
  {
    hide Pick, Fit, Stored, Replace, Update, Unchanged, AgreesOn, NothingExtra, Shape;
    ShapeAt(s, f);
    FittedIsStored(es);
    if flag in FLAGS { ReplaceAgreesIff(s, flag, Pick(es, PARSE_LIMIT), fwOk, f); }
  }

  /** From agreement, a call keeps it exactly when the firmware takes the commands, the call is turned
      down before any are sent, or the elements it would save are those already saved. */
  lemma CallKeepsAgreementIff(s: Ies, flag: nat, len: nat, es: seq<Element>, fwOk: bool)
    requires Agrees(s)
    ensures var (s', err) := SetMgmtIe(s, flag, len, es, fwOk);
      && Shape(s')
      && (Agrees(s') <==>
            || fwOk || flag !in FLAGS || len > IE_MAX_LEN
            || multiset(s.saved[flag]) == multiset(Fit(Pick(es, PARSE_LIMIT), IE_MAX_LEN)))
      && (!Agrees(s') ==> err == Failed)
  {
    var ps := Pick(es, PARSE_LIMIT);
    SavedAgain(s, flag, ps);
    hide Pick, Fit, Stored, EncodeAll, Update, Unchanged, SetMgmtIe;
    var s' := SetMgmtIe(s, flag, len, es, fwOk).0;
    forall f | f in FLAGS
      ensures Shape(s')
      ensures AgreesOn(s', f) <==>
        f != flag || fwOk || len > IE_MAX_LEN || multiset(s.saved[f]) == multiset(Fit(ps, IE_MAX_LEN))
    {
      CallAgreesIff(s, flag, len, es, fwOk, f);
    }
    assert BEACON in FLAGS;
    FailsOnlyWhenSent(s, flag, len, es, fwOk);
  }

  /** A call that sends nothing saves what is saved. */
  lemma SavedAgain(s: Ies, flag: nat, ps: seq<Element>)
    requires Agrees(s)
    ensures flag in FLAGS ==> flag in s.saved && NothingExtra(s, flag)
    ensures flag in FLAGS && (Unchanged(s.saved[flag], ps) || Update(s.saved[flag], flag, ps) == []) ==>
              multiset(s.saved[flag]) == multiset(Fit(ps, IE_MAX_LEN))
  {
    if flag in FLAGS {
      AgreesAt(s, flag);
      var old_ := s.saved[flag];
      assert Update(old_, flag, ps) == [] ==> old_ == Fit(ps, IE_MAX_LEN) == [];
      hide Fit, Agrees, Stored;
      if EncodeAll(ps) == EncodeAll(old_) {
        EncodeInjective(ps, old_);
        StoredFits(old_);
      }
    }
  }

  lemma FailsOnlyWhenSent(s: Ies, flag: nat, len: nat, es: seq<Element>, fwOk: bool)
    requires Shape(s)
    ensures var ps := Pick(es, PARSE_LIMIT);
      SetMgmtIe(s, flag, len, es, fwOk).1 == Failed <==>
      && !fwOk && flag in FLAGS && len <= IE_MAX_LEN
      && !Unchanged(s.saved[flag], ps) && Update(s.saved[flag], flag, ps) != []
  {
    hide Pick, Fit, Stored, Update, Unchanged, Receive, EncodeCommands;
  }

  const NO_IES: Ies := Ies(map f | f in FLAGS :: [], map f | f in FLAGS :: multiset{})

  lemma NothingSaved()
    ensures Agrees(NO_IES)
  {}

  /** It can be lost: the first beacon element, refused by the firmware, is saved all the same. Asking
      for it again is then skipped as unchanged; asking for nothing repairs the agreement. */
  lemma RefusedElementIsStillSaved(e: Element)
    requires Storable(e)
    ensures Agrees(NO_IES)
    ensures var (s1, err) := SetMgmtIe(NO_IES, BEACON, |Encode(e)|, [e], false);
      && err == Failed && s1.saved[BEACON] == [e] && Shape(s1) && !AgreesOn(s1, BEACON)
      && SetMgmtIe(s1, BEACON, |Encode(e)|, [e], true) == (s1, Ok)
      && AgreesOn(SetMgmtIe(s1, BEACON, 0, [], true).0, BEACON)
  {
    NothingSaved();
    assert BEACON in FLAGS;
    OneFits(e);
    hide Pick, Fit, Stored, Update, Receive, EncodeCommands, Commands, Storable, Encode, EncodeAll, NothingExtra;
    EmptyUpdate([], BEACON, [e]);
    var s1 := SetMgmtIe(NO_IES, BEACON, |Encode(e)|, [e], false).0;
    assert s1 == Ies(NO_IES.saved[BEACON := [e]], NO_IES.fw);
    CallAgreesIff(NO_IES, BEACON, |Encode(e)|, [e], false, BEACON);
    assert multiset([e])[e] == 1;
    CallAgreesIff(s1, BEACON, 0, [], true, BEACON);
    NothingLeft(s1, e);
  }

  lemma OneFits(e: Element)
    requires Storable(e)
    ensures Pick([e], PARSE_LIMIT) == [e] && Fit([e], IE_MAX_LEN) == [e] && Pick([], PARSE_LIMIT) == []
    ensures |Encode(e)| <= IE_MAX_LEN
  {
    assert [e][1..] == [];
  }

  lemma NothingLeft(s: Ies, e: Element)
    requires BEACON in s.saved && BEACON in s.fw && s.saved[BEACON] == [e] && s.fw[BEACON] == multiset{}
    ensures NothingExtra(s, BEACON)
  {}

  datatype Call = Call(flag: nat, len: nat, es: seq<Element>)

  lemma CallSucceeds(s: Ies, c: Call)
    requires Agrees(s)
    ensures Agrees(SetMgmtIe(s, c.flag, c.len, c.es, true).0)
  {
    hide Pick, Fit, Stored, SetMgmtIe;
    CallKeepsAgreementIff(s, c.flag, c.len, c.es, true);
  }

  /** After any sequence of calls the firmware took, what it holds for each frame type is what is
      saved for it. */
  ghost function Run(s: Ies, calls: seq<Call>): (s': Ies)
    requires Agrees(s)
    ensures Agrees(s')
    decreases |calls|
  {
    if calls == [] then s
    else
      CallSucceeds(s, calls[0]);
      Run(SetMgmtIe(s, calls[0].flag, calls[0].len, calls[0].es, true).0, calls[1..])
  }
}
