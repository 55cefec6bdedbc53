/** Which of the requested elements are saved and held (wifi-bcm4350/src/cfg80211.c:4786-5020), said of
    their bytes. */
module VendorIeLaws {
  import opened Basics
  import opened VendorIe

  /** A WPA element, or one of its QoS companions. */
  predicate IsWpa(body: seq<Byte>) {
    |body| >= 4 && body[0] == 0x00 && body[1] == 0x50 && body[2] == 0xf2 && (body[3] == 1 || body[3] == 2)
  }

  /** The elements the firmware is to be told about: vendor elements with something behind their type,
      and not those the driver makes itself. */
  predicate IsWanted(e: Element) { e.id == 221 && |e.body| >= 5 && !IsWpa(e.body) }

  function Wanted(es: seq<Element>): (ws: seq<Element>)
    ensures forall w :: w in ws ==> w in es && IsWanted(w)
  {
    if es == [] then [] else (if IsWanted(es[0]) then [es[0]] else []) + Wanted(es[1..])
  }

  lemma StorableIsWanted(e: Element)
    ensures Storable(e) <==> IsWanted(e)
  {
    if |e.body| >= 5 { assert e.body[..3] == [e.body[0], e.body[1], e.body[2]]; }
  }

  /** The bytes the first `k` of them take, each with two bytes of header and a command's twelve. */
  function Cost(ws: seq<Element>, k: nat): (n: nat)
    requires k <= |ws|
  {
    if k == 0 then 0 else Cost(ws, k - 1) + |ws[k - 1].body| + 14
  }

  /** Element `k` is still accepted: there is room for its body and a command header. */
  predicate FitsNext(ws: seq<Element>, k: nat)
    requires k < |ws|
  {
    Cost(ws, k) + |ws[k].body| + 12 <= 512
  }

  /** `k` is how many of `ws` are taken: at most five, each while it fits, and no more only because there
      are no more, or five, or the next does not fit. */
  ghost predicate Taken(ws: seq<Element>, k: nat) {
    && k <= |ws| && k <= 5
    && (forall j :: 0 <= j < k ==> FitsNext(ws, j))
    && (k == |ws| || k == 5 || !FitsNext(ws, k))
  }

  lemma {:induction false} PickIsWanted(es: seq<Element>, room: nat)
    ensures Pick(es, room) == if |Wanted(es)| <= room then Wanted(es) else Wanted(es)[..room]
    decreases |es|
  {
    hide *;
    PickUnfolds(es, room);
    if es != [] {
      StorableIsWanted(es[0]);
      PickIsWanted(es[1..], room);
      if room > 0 { PickIsWanted(es[1..], room - 1); }
    }
  }

  lemma PickUnfolds(es: seq<Element>, room: nat)
    ensures Pick(es, room) ==
      if es == [] || room == 0 then []
      else if Storable(es[0]) then [es[0]] + Pick(es[1..], room - 1) else Pick(es[1..], room)
    ensures Wanted(es) == if es == [] then [] else (if IsWanted(es[0]) then [es[0]] else []) + Wanted(es[1..])
  {
    hide Storable, IsWanted;
  }

  lemma {:induction false} CostShift(ws: seq<Element>, k: nat)
    requires 0 < k <= |ws|
    ensures Cost(ws, k) == |ws[0].body| + 14 + Cost(ws[1..], k - 1)
  {
    if k > 1 { CostShift(ws, k - 1); }
  }

  lemma {:induction false} CostPrefix(ws: seq<Element>, n: nat, k: nat)
    requires k <= n <= |ws|
    ensures Cost(ws[..n], k) == Cost(ws, k)
  {
    if k > 0 { CostPrefix(ws, n, k - 1); }
  }

  /** The same with `spent` of the 512 bytes used before. */
  predicate Fits(ws: seq<Element>, spent: nat, j: nat)
    requires j < |ws|
  {
    spent + Cost(ws, j) + |ws[j].body| + 12 <= 512
  }

  lemma FitsShift(ws: seq<Element>, spent: nat, j: nat)
    requires 0 < j < |ws|
    ensures Fits(ws, spent, j) <==> Fits(ws[1..], spent + |ws[0].body| + 14, j - 1)
  {
    CostShift(ws, j);
  }

  lemma FitsFirst(ws: seq<Element>, spent: nat)
    requires ws != []
    ensures Fits(ws, spent, 0) <==> 512 - spent >= |ws[0].body| + 12
  {}

  /** The save loop takes the elements while they fit. */
  lemma {:induction false} FitTakes(ws: seq<Element>, spent: nat) returns (k: nat)
    ensures k <= |ws| && Fit(ws, 512 - spent) == ws[..k]
    ensures forall j :: 0 <= j < k ==> Fits(ws, spent, j)
    ensures k < |ws| ==> !Fits(ws, spent, k)
    decreases |ws|
  {
    hide Fits, Fit;
    FitUnfolds(ws, 512 - spent);
    k := 0;
    if ws != [] {
      FitsFirst(ws, spent);
      if 512 - spent >= |ws[0].body| + 12 {
        var k' := FitTakes(ws[1..], spent + |ws[0].body| + 14);
        k := k' + 1;
        assert ws[..k] == [ws[0]] + ws[1..][..k'];
        forall j | 0 < j < |ws| ensures Fits(ws, spent, j) <==> Fits(ws[1..], spent + |ws[0].body| + 14, j - 1) {
          FitsShift(ws, spent, j);
        }
      }
    }
  }

  lemma FitUnfolds(ws: seq<Element>, remained: int)
    ensures Fit(ws, remained) ==
      if ws == [] || remained < |ws[0].body| + 12 then [] else [ws[0]] + Fit(ws[1..], remained - (|ws[0].body| + 14))
  {}

  /** What a call that replaces saves: the first of the wanted elements, exactly as many as are taken. */
  lemma SavedAreTaken(es: seq<Element>) returns (k: nat)
    ensures Taken(Wanted(es), k) && Fit(Pick(es, PARSE_LIMIT), IE_MAX_LEN) == Wanted(es)[..k]
  {
    var ws, ps := Wanted(es), Pick(es, PARSE_LIMIT);
    PickIsWanted(es, PARSE_LIMIT);
    k := FitTakes(ps, 0);
    var n := |ps|;
    assert ps == ws[..n];
    forall j | 0 <= j < k ensures FitsNext(ws, j) {
      CostPrefix(ws, n, j);
      assert Fits(ps, 0, j);
    }
    if k < n { CostPrefix(ws, n, k); }
    assert ps[..k] == ws[..k];
  }

  /** After a call that the firmware takes, the frame type has exactly those saved and, from agreement,
      held; all the others have what they had. */
  lemma CallSavesTaken(s: Ies, flag: nat, len: nat, es: seq<Element>) returns (k: nat)
    requires Agrees(s) && flag in FLAGS && len <= IE_MAX_LEN
    ensures Taken(Wanted(es), k)
    ensures var s' := SetMgmtIe(s, flag, len, es, true).0; var saved := Wanted(es)[..k];
      && Agrees(s') && s'.saved[flag] == saved && s'.fw[flag] == multiset(saved)
      && forall f :: f in FLAGS && f != flag ==> s'.saved[f] == s.saved[f] && s'.fw[f] == s.fw[f]
  {
    hide Pick, Fit, Stored, EncodeAll, Update, Unchanged, Wanted, Taken, SetMgmtIe, Agrees;
    k := SavedAreTaken(es);
    CallKeepsAgreementIff(s, flag, len, es, true);
    AgreesShape(s);
    CallResult(s, flag, len, es, true);
    var s' := SetMgmtIe(s, flag, len, es, true).0;
    AgreesAt(s', flag);
    forall f | f in FLAGS && f != flag ensures f in s.saved && f in s.fw && f in s'.saved && f in s'.fw {
      AgreesAt(s, f);
      AgreesAt(s', f);
    }
  }

  lemma AgreesShape(s: Ies)
    requires Agrees(s)
    ensures Shape(s)
  {
    hide Stored;
  }

  /** What a call saves, and that it leaves the other frame types alone. */
  lemma CallResult(s: Ies, flag: nat, len: nat, es: seq<Element>, fwOk: bool)
    requires Shape(s) && flag in FLAGS && len <= IE_MAX_LEN
    ensures flag in s.saved && flag in s.fw
    ensures var s' := SetMgmtIe(s, flag, len, es, fwOk).0; var fs := Fit(Pick(es, PARSE_LIMIT), IE_MAX_LEN);
      && s'.saved == s.saved[flag := fs]
      && (s'.fw == s.fw || s'.fw == s.fw[flag := s.fw[flag] - multiset(s.saved[flag]) + multiset(fs)])
  {
    var ps := Pick(es, PARSE_LIMIT);
    hide Pick, Fit, Stored, Update, Replace, EncodeAll;
    ShapeAt(s, flag);
    if Unchanged(s.saved[flag], ps) {
      EncodeInjective(ps, s.saved[flag]);
      StoredFits(s.saved[flag]);
      assert s.saved[flag := s.saved[flag]] == s.saved;
    } else {
      ReplaceResult(s, flag, ps, fwOk);
    }
  }

  /** So when at most five are wanted and they fit with their headers, all of them are, in order. */
  lemma AllWantedAreHeld(s: Ies, flag: nat, len: nat, es: seq<Element>)
    requires Agrees(s) && flag in FLAGS && len <= IE_MAX_LEN
    requires |Wanted(es)| <= 5 && Cost(Wanted(es), |Wanted(es)|) <= 512
    ensures var s' := SetMgmtIe(s, flag, len, es, true).0;
      flag in s'.saved && flag in s'.fw && s'.saved[flag] == Wanted(es) && s'.fw[flag] == multiset(Wanted(es))
  {
    hide SetMgmtIe, Agrees, Wanted, Taken, Cost;
    AgreesShape(s);
    var ws := Wanted(es);
    var k := CallSavesTaken(s, flag, len, es);
    AgreesAt(SetMgmtIe(s, flag, len, es, true).0, flag);
    AllTaken(ws, k);
    assert ws[..|ws|] == ws;
  }

  lemma AllTaken(ws: seq<Element>, k: nat)
    requires Taken(ws, k) && |ws| <= 5 && Cost(ws, |ws|) <= 512
    ensures k == |ws|
  {
    if k < |ws| { CostGrows(ws, k + 1); }
  }

  lemma {:induction false} CostGrows(ws: seq<Element>, k: nat)
    requires k <= |ws|
    ensures Cost(ws, k) <= Cost(ws, |ws|)
    decreases |ws| - k
  {
    if k < |ws| { CostGrows(ws, k + 1); }
  }

  /** And never, over any calls and whatever the firmware refuses, is any other element saved or held. */
  ghost predicate OnlyWanted(s: Ies) {
    && (forall f :: f in s.saved ==> forall e :: e in s.saved[f] ==> IsWanted(e))
    && (forall f :: f in s.fw ==> forall e :: e in s.fw[f] ==> IsWanted(e))
  }

  lemma CallKeepsWanted(s: Ies, flag: nat, len: nat, es: seq<Element>, fwOk: bool)
    requires Shape(s) && OnlyWanted(s)
    ensures var s' := SetMgmtIe(s, flag, len, es, fwOk).0; Shape(s') && OnlyWanted(s')
  {
    hide Pick, Fit, Stored, Taken, IsWanted, Shape, Wanted;
    if flag in FLAGS && len <= IE_MAX_LEN {
      CallAgreesIff(s, flag, len, es, fwOk, flag);
      var k := SavedAreTaken(es);
      CallResult(s, flag, len, es, fwOk);
      hide SetMgmtIe;
      var fs := Fit(Pick(es, PARSE_LIMIT), IE_MAX_LEN);
      assert forall e :: e in fs ==> e in Wanted(es);
    }
  }

  datatype Try = Try(flag: nat, len: nat, es: seq<Element>, fwOk: bool)

  ghost function Attempts(s: Ies, tries: seq<Try>): (s': Ies)
    requires Shape(s) && OnlyWanted(s)
    ensures Shape(s') && OnlyWanted(s')
    decreases |tries|
  {
    if tries == [] then s
    else
      var t := tries[0];
      CallKeepsWanted(s, t.flag, t.len, t.es, t.fwOk);
      Attempts(SetMgmtIe(s, t.flag, t.len, t.es, t.fwOk).0, tries[1..])
  }

  /** The state with nothing saved starts such calls. */
  lemma NothingIsWanted()
    ensures Shape(NO_IES) && OnlyWanted(NO_IES)
  {}

  // ----- what is sent

  /** The frame types are bits of the interface to the firmware. */
  lemma FrameTypes()
    ensures (BEACON, PRBRSP, ASSOCRSP, PRBREQ, ASSOCREQ) == (1, 2, 4, 16, 32) && FLAGS == {1, 2, 4, 16, 32}
  {}

  /** A command as the firmware gets it: verb, count one, frame type, element. */
  lemma CommandLayout(add: bool, flag: nat, e: Element)
    requires flag in FLAGS
    ensures var s := EncodeCommand(Command(add, flag, e));
      && |s| == 14 + |e.body| && s[..3] == Ascii(if add then "add" else "del")
      && s[3..12] == [0, 1, 0, 0, 0, flag, 0, 0, 0]
      && s[12] == e.id && s[13] == |e.body| && s[14..] == e.body
  {
    var s := EncodeCommand(Command(add, flag, e));
    assert s[..4] == if add then ADD else DEL;
  }

  /** What is asked for: the first five of the wanted elements. */
  function Asked(es: seq<Element>): (ps: seq<Element>) {
    var ws := Wanted(es);
    if |ws| <= 5 then ws else ws[..5]
  }

  /** A call sends nothing, and so cannot fail, exactly when what is asked for is what is saved. */
  lemma QuietIff(s: Ies, flag: nat, len: nat, es: seq<Element>)
    requires Shape(s) && flag in FLAGS && len <= 512
    ensures flag in s.saved && (SetMgmtIe(s, flag, len, es, false).1 == Ok <==> Asked(es) == s.saved[flag])
    ensures SetMgmtIe(s, flag, len, es, false).1 in {Ok, Failed} && SetMgmtIe(s, flag, len, es, true).1 == Ok
  {
    var ps := Asked(es);
    PickIsWanted(es, PARSE_LIMIT);
    hide Pick, Wanted, Fit, Stored, Update, EncodeAll, Receive, EncodeCommands;
    ShapeAt(s, flag);
    var old_ := s.saved[flag];
    FailsOnlyWhenSent(s, flag, len, es, false);
    EmptyUpdate(old_, flag, ps);
    FirstFits(ps);
    if EncodeAll(ps) == EncodeAll(old_) { EncodeInjective(ps, old_); }
  }

  lemma FirstFits(ps: seq<Element>)
    ensures Fit(ps, IE_MAX_LEN) == [] <==> ps == []
  {}

  /** Other calls are turned down and change nothing. */
  lemma TurnedDown(s: Ies, flag: nat, len: nat, es: seq<Element>, fwOk: bool)
    requires Shape(s)
    ensures flag !in {1, 2, 4, 16, 32} <==> SetMgmtIe(s, flag, len, es, fwOk).1 == NotPermitted
    ensures flag in {1, 2, 4, 16, 32} && len > 512 <==> SetMgmtIe(s, flag, len, es, fwOk).1 == NoSpace
    ensures flag !in {1, 2, 4, 16, 32} || len > 512 ==> SetMgmtIe(s, flag, len, es, fwOk).0 == s
  {
    hide Pick, Fit, Stored, Update, Unchanged, Receive, EncodeCommands;
  }

  // ----- buffers that are cut off

  /** `k` bytes of an element, but not all of it. */
  function Cut(e: Element, k: nat): (j: seq<Byte>)
    requires 0 < k < |e.body| + 2
    ensures |j| == k && j[0] == e.id && (k > 1 ==> j[1] == |e.body|) && forall i :: 2 <= i < k ==> j[i] == e.body[i - 2]
  {
    Encode(e)[..k]
  }

  lemma WholeNext(e: Element, rest: seq<Byte>)
    ensures Whole(Encode(e) + rest) == ([e] + Whole(rest).0, Whole(rest).1)
  {
    var s, n := Encode(e) + rest, 2 + |e.body|;
    assert s[0] == e.id && s[1] == |e.body| && s[2..n] == e.body && s[n..] == rest;
  }

  lemma CutIsRest(e: Element, k: nat)
    requires 0 < k < |e.body| + 2
    ensures Whole(Cut(e, k)) == ([], Cut(e, k))
  {
    hide Cut;
  }

  lemma NoElements(es: seq<Element>)
    requires es == []
    ensures EncodeAll(es) == []
  {}

  lemma {:induction false} WholeThenCut(es: seq<Element>, e: Element, k: nat)
    requires 0 < k < |e.body| + 2
    ensures Whole(EncodeAll(es) + Cut(e, k)) == (es, Cut(e, k))
  {
    hide *;
    var j := Cut(e, k);
    if es == [] {
      CutIsRest(e, k);
      NoElements(es);
      assert EncodeAll(es) + j == j;
    } else {
      var e0, tail := es[0], es[1..];
      assert es == [e0] + tail;
      WholeThenCut(tail, e, k);
      EncodeCons(e0, tail);
      WholeNext(e0, EncodeAll(tail) + j);
      assert Encode(e0) + EncodeAll(tail) + j == Encode(e0) + (EncodeAll(tail) + j);
    }
  }

  /** Whole elements are never read past. */
  lemma WholeIsSafe(es: seq<Element>)
    ensures !WalksPast(EncodeAll(es))
  {
    WholeRoundTrip(es);
    hide Whole, EncodeAll;
  }

  /** A last element that is cut off is, if it comes to it and fewer than five are wanted before it: when
      it would have to be copied, or its length is not even there. Two bytes or less behind an element are
      left alone. */
  lemma CutIsReadPastIff(es: seq<Element>, e: Element, k: nat)
    requires 0 < k < |e.body| + 2
    ensures WalksPast(EncodeAll(es) + Cut(e, k)) <==>
      && |Wanted(es)| < 5 && (es == [] || k > 2)
      && (k == 1 || (e.id == 221 && |e.body| >= 5 && (k < 6 || !IsWpa(e.body))))
  {
    WholeThenCut(es, e, k);
    PickIsWanted(es, PARSE_LIMIT);
    CutIsBadIff(e, k);
    hide Whole, EncodeAll, Cut, Pick, Wanted, BadRest, IsWpa;
  }

  lemma CutIsBadIff(e: Element, k: nat)
    requires 0 < k < |e.body| + 2
    ensures BadRest(Cut(e, k)) <==> k == 1 || (e.id == 221 && |e.body| >= 5 && (k < 6 || !IsWpa(e.body)))
  {
    hide Cut;
    var j := Cut(e, k);
    if k >= 6 { assert j[2..5] == [e.body[0], e.body[1], e.body[2]]; }
  }

  /** And there are no other buffers. */
  lemma WholeOrCut(s: seq<Byte>) returns (es: seq<Element>, e: Element, k: nat)
    ensures k < |e.body| + 2 && s == EncodeAll(es) + if k == 0 then [] else Cut(e, k)
  {
    WholeSplits(s);
    hide Whole, EncodeAll;
    var rest := Whole(s).1;
    es, e, k := Whole(s).0, Element(0, []), |rest|;
    if k == 1 { e := Element(rest[0], []); }
    if k >= 2 { e := Element(rest[0], rest[2..] + Zeros(rest[1] as int - (k - 2))); }
    if k > 0 { assert Cut(e, k) == rest; }
  }

  function Zeros(n: nat): (s: seq<Byte>)
    ensures |s| == n
  {
    seq(n, _ => 0)
  }
}
