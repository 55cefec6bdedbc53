/** The pointer-advancing parser and the update of brcmf_vif_set_mgmt_ie
    (wifi-bcm4350/src/cfg80211.c:4786-5020), over bytes and a fixed command buffer. */
module VendorIeTables {
  import opened Basics
  import opened VendorIe

  /** Where a parsed element lies in the buffer it was found in. */
  datatype Info = Info(off: nat, len: nat)

  ghost predicate Points(buf: seq<Byte>, infos: seq<Info>, ps: seq<Element>) {
    && |infos| == |ps|
    && forall i :: 0 <= i < |ps| ==>
         && infos[i].off + infos[i].len <= |buf|
         && buf[infos[i].off..infos[i].off + infos[i].len] == Encode(ps[i])
  }

  lemma ElementAt(es: seq<Element>, k: nat)
    requires k < |es|
    ensures var o := |EncodeAll(es[..k])|; var e := es[k];
      && |EncodeAll(es)| == o + |e.body| + 2 + |EncodeAll(es[k + 1..])|
      && |EncodeAll(es[..k + 1])| == o + |e.body| + 2
      && EncodeAll(es)[o..o + |e.body| + 2] == Encode(e)
  {
    hide Encode;
    assert es == es[..k] + ([es[k]] + es[k + 1..]);
    EncodeConcat(es[..k], [es[k]] + es[k + 1..]);
    EncodeConcat([es[k]], es[k + 1..]);
    assert es[..k + 1] == es[..k] + [es[k]];
    EncodeConcat(es[..k], [es[k]]);
    assert EncodeAll([es[k]]) == Encode(es[k]) + [] == Encode(es[k]);
  }

  lemma ShortTail(es: seq<Element>, room: nat)
    requires |EncodeAll(es)| <= 2
    ensures Pick(es, room) == []
  {
    if es != [] {
      assert |es[0].body| == 0 && |EncodeAll(es[1..])| == 0;
      if es[1..] != [] { assert false; }
    }
  }

  /** What the tests on the element at `off` come to. */
  datatype Look = Past | Skip(len: nat) | Keep(len: nat)

  function LookAt(buf: seq<Byte>, off: nat): (look: Look)
    requires off < |buf|
    ensures !look.Past? ==> off + 1 < |buf| && look.len == buf[off + 1] as int
  {
    if off + 2 > |buf| then Past
    else
      var len := buf[off + 1] as int;
      if buf[off] != VENDOR_SPECIFIC || len < 5 then Skip(len)
      else if off + 6 > |buf| then Past
      else if buf[off + 2..off + 5] == WPA_OUI && (buf[off + 5] == 1 || buf[off + 5] == 2) then Skip(len)
      else if off + 2 + len > |buf| then Past
      else Keep(len)
  }

  lemma LookAtWhole(buf: seq<Byte>, off: nat, e: Element)
    requires off + |e.body| + 2 <= |buf| && buf[off..off + |e.body| + 2] == Encode(e)
    ensures LookAt(buf, off) == if Storable(e) then Keep(|e.body|) else Skip(|e.body|)
  {
    HeadBytes(buf, off, e);
    if |e.body| >= 5 {
      assert buf[off + 2..off + 5] == e.body[..3] && buf[off + 5] == e.body[3];
    }
  }

  lemma LookAtRest(buf: seq<Byte>, off: nat, rest: seq<Byte>)
    requires off < |buf| && rest == buf[off..] && (|rest| < 2 || |rest| < 2 + rest[1] as int)
    ensures var look := LookAt(buf, off);
      (look.Past? <==> BadRest(rest)) && (!look.Past? ==> look.Skip? && |rest| - (look.len + 2) < 0)
  {
    if |rest| >= 6 { assert rest[2..5] == buf[off + 2..off + 5]; }
  }

  /** Where the walk stands: before element `k`, or at the rest. */
  ghost predicate Standing(buf: seq<Byte>, es: seq<Element>, rest: seq<Byte>, k: nat, off: nat) {
    && k <= |es| && off == |EncodeAll(es[..k])| && off < |buf|
    && (k == |es| ==> rest == buf[off..] && (|rest| > 2 || es == []))
  }

  /** Finds the elements worth keeping, at most five, in any bytes; fails exactly when the walk, or the
      copy of what it found, reads past the end. The loop stops when two bytes or fewer remain. */
  method ParseVndrIes(buf: seq<Byte>) returns (r: Option<seq<Info>>)
    requires buf != []
    ensures r.None? <==> WalksPast(buf)
    ensures r.Some? ==> Points(buf, r.value, Pick(Whole(buf).0, PARSE_LIMIT))
  {
    hide EncodeAll, Encode, Pick, Storable, Points, Whole, BadRest, LookAt, Standing;
    ghost var (es, rest) := Whole(buf);
    NoPoints(buf);
    var infos: seq<Info> := [];
    var off := 0;
    var remaining: int := |buf|;
    ghost var k, ps := 0, [];
    WalkStart(buf);
    while true
      invariant 0 <= k <= |es| && 0 <= off < |buf| && remaining == |buf| - off && Standing(buf, es, rest, k, off)
      invariant |infos| < PARSE_LIMIT && |infos| == |ps| && Points(buf, infos, ps)
      invariant Pick(es, PARSE_LIMIT) == ps + Pick(es[k..], PARSE_LIMIT - |infos|)
      decreases remaining
    {
      if k < |es| { WalkElement(buf, k, off, PARSE_LIMIT - |infos|); } else { WalkRest(buf, off, ps); }
      var look := LookAt(buf, off);
      if look.Past? { return None; }
      if look.Keep? {
        PointsNext(buf, infos, ps, Info(off, look.len + 2), es[k], Pick(es[k + 1..], PARSE_LIMIT - |infos| - 1));
        infos := infos + [Info(off, look.len + 2)];
        ps := ps + [es[k]];
      }
      if k < |es| { WalkEnd(buf, k, off, ps, PARSE_LIMIT - |infos|); }
      if |infos| >= PARSE_LIMIT { return Some(infos); }
      remaining := remaining - (look.len + 2);
      if remaining <= 2 { return Some(infos); }
      off := off + look.len + 2;
      k := k + 1;
    }
  }

  lemma WalkStart(buf: seq<Byte>)
    requires buf != []
    ensures var (es, rest) := Whole(buf);
      Standing(buf, es, rest, 0, 0) && Pick(es, PARSE_LIMIT) == [] + Pick(es[0..], PARSE_LIMIT)
  {
    hide Whole, Pick;
    WholeSplits(buf);
    var (es, rest) := Whole(buf);
    assert es[0..] == es && es[..0] == [];
  }

  /** The walk's position is at the next element. */
  lemma WalkElement(buf: seq<Byte>, k: nat, off: nat, room: nat)
    requires Standing(buf, Whole(buf).0, Whole(buf).1, k, off) && k < |Whole(buf).0| && room > 0
    ensures var es := Whole(buf).0;
      && LookAt(buf, off) == (if Storable(es[k]) then Keep(|es[k].body|) else Skip(|es[k].body|))
      && off + |es[k].body| + 2 <= |buf| && buf[off..off + |es[k].body| + 2] == Encode(es[k])
      && Pick(es[k..], room) ==
         if Storable(es[k]) then [es[k]] + Pick(es[k + 1..], room - 1) else Pick(es[k + 1..], room)
  {
    hide Whole, Pick, EncodeAll, Encode, LookAt, BadRest, Storable;
    var es := Whole(buf).0;
    WholeSplits(buf);
    ElementIn(buf, es, k);
    LookAtWhole(buf, off, es[k]);
    UnfoldPick(es, k, room);
  }

  /** Or at the rest, which decides. */
  lemma WalkRest(buf: seq<Byte>, off: nat, ps: seq<Element>)
    requires Standing(buf, Whole(buf).0, Whole(buf).1, |Whole(buf).0|, off) && |ps| < PARSE_LIMIT
    requires var es := Whole(buf).0; Pick(es, PARSE_LIMIT) == ps + Pick(es[|es|..], PARSE_LIMIT - |ps|)
    ensures Pick(Whole(buf).0, PARSE_LIMIT) == ps
    ensures var look := LookAt(buf, off);
      && (look.Past? <==> WalksPast(buf))
      && (!look.Past? ==> look.Skip? && |buf| - off - (look.len + 2) < 0)
  {
    hide *;
    var (es, rest) := Whole(buf);
    AtRest(buf, es, rest, off);
    LookAtRest(buf, off, rest);
    NothingPicked(es[|es|..], PARSE_LIMIT - |ps|);
    assert ps + [] == ps;
    PastAtRest(buf);
  }

  lemma AtRest(buf: seq<Byte>, es: seq<Element>, rest: seq<Byte>, off: nat)
    requires Standing(buf, es, rest, |es|, off)
    ensures off < |buf| && rest == buf[off..] && (|rest| > 2 || (es == [] && rest != []))
  {
    hide EncodeAll;
  }

  lemma PastAtRest(buf: seq<Byte>)
    requires var (es, rest) := Whole(buf);
      |Pick(es, PARSE_LIMIT)| < PARSE_LIMIT && (|rest| > 2 || (es == [] && rest != []))
    ensures WalksPast(buf) <==> BadRest(Whole(buf).1)
  {
    hide Whole, Pick, BadRest;
  }

  lemma NothingPicked(es: seq<Element>, room: nat)
    ensures es == [] || room == 0 ==> Pick(es, room) == []
  {}

  /** The walk ends without room, or when at most two bytes are left; nothing more is found there. */
  lemma WalkEnd(buf: seq<Byte>, k: nat, off: nat, ps: seq<Element>, room: nat)
    requires Standing(buf, Whole(buf).0, Whole(buf).1, k, off) && k < |Whole(buf).0|
    requires |ps| + room == PARSE_LIMIT
    requires Pick(Whole(buf).0, PARSE_LIMIT) == ps + Pick(Whole(buf).0[k + 1..], room)
    ensures var es := Whole(buf).0; var left := |buf| - off - (|es[k].body| + 2);
      && (room == 0 || left <= 2 ==> Pick(es, PARSE_LIMIT) == ps && !WalksPast(buf))
      && (left > 2 ==> Standing(buf, es, Whole(buf).1, k + 1, off + |es[k].body| + 2))
  {
    hide Whole, Pick, EncodeAll, Encode, BadRest;
    var (es, rest) := Whole(buf);
    WholeSplits(buf);
    ElementIn(buf, es, k);
    var next := off + |es[k].body| + 2;
    NothingPicked(es[k + 1..], room);
    if |buf| - next <= 2 { ShortTail(es[k + 1..], room); }
    if k + 1 == |es| {
      assert es[..k + 1] == es;
      assert buf[next..] == rest;
    }
  }

  /** Element `k` where the walk finds it in the buffer. */
  lemma ElementIn(buf: seq<Byte>, es: seq<Element>, k: nat)
    requires k < |es| && EncodeAll(es) <= buf
    ensures var o := |EncodeAll(es[..k])|; var e := es[k];
      && o + |e.body| + 2 <= |buf| && buf[o..o + |e.body| + 2] == Encode(e)
      && |EncodeAll(es[..k + 1])| == o + |e.body| + 2
      && |EncodeAll(es)| == o + |e.body| + 2 + |EncodeAll(es[k + 1..])|
      && (k + 1 == |es| ==> |EncodeAll(es[k + 1..])| == 0)
  {
    hide EncodeAll, Encode;
    ElementAt(es, k);
    EncodeNothing();
    assert k + 1 == |es| ==> es[k + 1..] == [];
    var o, n := |EncodeAll(es[..k])|, |es[k].body| + 2;
    assert buf[o..o + n] == EncodeAll(es)[o..o + n];
  }

  lemma NoPoints(buf: seq<Byte>)
    ensures Points(buf, [], [])
  {}

  lemma PointsLength(buf: seq<Byte>, infos: seq<Info>, ps: seq<Element>)
    requires Points(buf, infos, ps)
    ensures |infos| == |ps|
  {}

  lemma PointAt(buf: seq<Byte>, infos: seq<Info>, ps: seq<Element>, i: nat)
    requires Points(buf, infos, ps) && i < |ps|
    ensures |infos| == |ps| && infos[i].off + infos[i].len <= |buf|
    ensures buf[infos[i].off..infos[i].off + infos[i].len] == Encode(ps[i])
  {}

  lemma PointsNext(buf: seq<Byte>, infos: seq<Info>, ps: seq<Element>, info: Info, e: Element, rest: seq<Element>)
    requires Points(buf, infos, ps)
    requires info.off + info.len <= |buf| && buf[info.off..info.off + info.len] == Encode(e)
    ensures Points(buf, infos + [info], ps + [e])
    ensures ps + ([e] + rest) == ps + [e] + rest
  {
    hide Encode;
  }

  lemma HeadBytes(buf: seq<Byte>, off: nat, e: Element)
    requires off + |e.body| + 2 <= |buf| && buf[off..off + |e.body| + 2] == Encode(e)
    ensures buf[off] == e.id && buf[off + 1] == |e.body| && buf[off + 2..off + 2 + |e.body|] == e.body
  {
    var v := buf[off..off + |e.body| + 2];
    assert v[0] == buf[off] && v[1] == buf[off + 1];
    assert v[2..] == buf[off + 2..off + 2 + |e.body|] == e.body;
  }

  lemma UnfoldPick(es: seq<Element>, k: nat, room: nat)
    requires k < |es| && room > 0
    ensures Pick(es[k..], room) ==
      if Storable(es[k]) then [es[k]] + Pick(es[k + 1..], room - 1) else Pick(es[k + 1..], room)
    ensures Pick(es[k + 1..], 0) == []
  {
    assert es[k..][0] == es[k] && es[k..][1..] == es[k + 1..];
  }

  lemma EncodeNothing()
    ensures EncodeAll([]) == []
  {}

  /** Writes bytes into the command buffer. */
  method CopyBytes(dst: array<Byte>, at: nat, src: seq<Byte>)
    requires at + |src| <= dst.Length
    modifies dst
    ensures dst[..at + |src|] == old(dst[..at]) + src
  {
    ghost var before := dst[..at];
    for i := 0 to |src|
      invariant dst[..at + i] == before + src[..i]
    {
      dst[at + i] := src[i];
      assert dst[..at + i + 1] == dst[..at + i] + [src[i]];
    }
  }

  /** brcmf_vndr_ie: one add or del command. */
  method EmitCommand(buf: array<Byte>, at: nat, add: bool, flag: nat, ie: seq<Byte>, ghost e: Element)
    returns (at': nat)
    requires flag < 256 && ie == Encode(e) && at + CMD_HDR + |ie| <= buf.Length
    modifies buf
    ensures at' == at + CMD_HDR + |ie|
    ensures buf[..at'] == old(buf[..at]) + EncodeCommand(Command(add, flag, e))
  {
    hide Encode;
    ghost var before := buf[..at];
    var verb := if add then ADD else DEL;
    CopyBytes(buf, at, verb);
    CopyBytes(buf, at + 4, [1, 0, 0, 0]);
    CopyBytes(buf, at + 8, [flag, 0, 0, 0]);
    CopyBytes(buf, at + 12, ie);
    at' := at + CMD_HDR + |ie|;
    Reassociate(before, verb, [1, 0, 0, 0], [flag, 0, 0, 0], ie);
  }

  lemma Reassociate(s: seq<Byte>, a: seq<Byte>, b: seq<Byte>, c: seq<Byte>, d: seq<Byte>)
    ensures s + a + b + c + d == s + (a + b + c + d)
  {}

  lemma CommandsNext(add: bool, flag: nat, es: seq<Element>, i: nat)
    requires flag < 256 && i < |es|
    ensures EncodeCommands(Commands(add, flag, es[..i + 1])) ==
            EncodeCommands(Commands(add, flag, es[..i])) + EncodeCommand(Command(add, flag, es[i]))
  {
    var c := Command(add, flag, es[i]);
    assert Commands(add, flag, es[..i + 1]) == Commands(add, flag, es[..i]) + [c];
    CommandsConcat(Commands(add, flag, es[..i]), [c]);
    assert EncodeCommands([c]) == EncodeCommand(c) + [] == EncodeCommand(c);
  }

  lemma CommandsPrefix(add: bool, flag: nat, es: seq<Element>, i: nat)
    requires flag < 256 && i <= |es|
    ensures |EncodeCommands(Commands(add, flag, es[..i]))| <= |EncodeCommands(Commands(add, flag, es))|
  {
    assert Commands(add, flag, es) == Commands(add, flag, es[..i]) + Commands(add, flag, es[i..]);
    CommandsConcat(Commands(add, flag, es[..i]), Commands(add, flag, es[i..]));
  }

  /** The loop that deletes the old elements: one command for each. */
  method EmitDels(out: array<Byte>, flag: nat, bytes: seq<Byte>, infos: seq<Info>, ghost es: seq<Element>)
    returns (total: nat)
    requires flag < 256 && Points(bytes, infos, es)
    requires |EncodeCommands(Commands(false, flag, es))| <= out.Length
    modifies out
    ensures total <= out.Length && out[..total] == EncodeCommands(Commands(false, flag, es))
    ensures total > 0 <==> es != []
  {
    hide EncodeCommands, EncodeCommand, Encode;
    total := 0;
    NoCommands(false, flag, es);
    for i := 0 to |infos|
      invariant total <= out.Length && out[..total] == EncodeCommands(Commands(false, flag, es[..i]))
      invariant total >= i
    {
      CommandsNext(false, flag, es, i);
      CommandsPrefix(false, flag, es, i + 1);
      total := EmitCommand(out, total, false, flag, bytes[infos[i].off..infos[i].off + infos[i].len], es[i]);
    }
    assert es[..|infos|] == es;
  }

  lemma NoCommands(add: bool, flag: nat, es: seq<Element>)
    requires flag < 256
    ensures EncodeCommands(Commands(add, flag, es[..0])) == [] && EncodeAll(es[..0]) == []
  {
    assert Commands(add, flag, es[..0]) == [];
  }

  /** The loop that adds and saves the new elements while they fit. */
  method EmitAdds(out: array<Byte>, start: nat, flag: nat, bytes: seq<Byte>, infos: seq<Info>, ghost ps: seq<Element>)
    returns (total: nat, saved: seq<Byte>)
    requires flag < 256 && Points(bytes, infos, ps)
    requires start + |EncodeCommands(Commands(true, flag, Fit(ps, IE_MAX_LEN)))| <= out.Length
    modifies out
    ensures start <= total <= out.Length
    ensures out[..total] == old(out[..start]) + EncodeCommands(Commands(true, flag, Fit(ps, IE_MAX_LEN)))
    ensures saved == EncodeAll(Fit(ps, IE_MAX_LEN))
    ensures total > start <==> Fit(ps, IE_MAX_LEN) != []
  {
    hide EncodeCommands, EncodeCommand, EncodeAll, Fit, Encode, Commands, Points, Taken;
    PointsLength(bytes, infos, ps);
    ghost var fs := Fit(ps, IE_MAX_LEN);
    ghost var before := out[..start];
    total, saved := start, [];
    var remained: int := IE_MAX_LEN;
    NoCommands(true, flag, fs);
    var i := 0;
    NoneTaken(ps);
    while i < |infos|
      invariant 0 <= i <= |fs| && Taken(ps, fs, i, remained)
      invariant start + i <= total <= out.Length
      invariant out[..total] == before + EncodeCommands(Commands(true, flag, fs[..i]))
      invariant saved == EncodeAll(fs[..i])
    {
      TakeStep(ps, i, remained, fs);
      PointAt(bytes, infos, ps, i);
      var ie := bytes[infos[i].off..infos[i].off + infos[i].len];
      if remained < (|ie| - 2) + CMD_HDR { break; }
      remained := remained - (|ie| + CMD_HDR);
      total := AddOne(out, total, flag, ie, fs, i, before);
      ElementNext(fs, i);
      saved := saved + ie;
      i := i + 1;
    }
    TakeStep(ps, i, remained, fs);
  }

  method AddOne(out: array<Byte>, at: nat, flag: nat, ie: seq<Byte>, ghost fs: seq<Element>, ghost i: nat,
                ghost before: seq<Byte>)
    returns (at': nat)
    requires flag < 256 && i < |fs| && ie == Encode(fs[i]) && at <= out.Length
    requires out[..at] == before + EncodeCommands(Commands(true, flag, fs[..i]))
    requires |before| + |EncodeCommands(Commands(true, flag, fs))| <= out.Length
    modifies out
    ensures at + 1 <= at' <= out.Length
    ensures out[..at'] == before + EncodeCommands(Commands(true, flag, fs[..i + 1]))
  {
    hide EncodeCommands, Encode, Commands;
    CommandsNext(true, flag, fs, i);
    CommandsPrefix(true, flag, fs, i + 1);
    at' := EmitCommand(out, at, true, flag, ie, fs[i]);
  }

  lemma UnfoldFit(ps: seq<Element>, i: nat, remained: int)
    requires i <= |ps|
    ensures Fit(ps[i..], remained) ==
      if i == |ps| || remained < |ps[i].body| + CMD_HDR then []
      else [ps[i]] + Fit(ps[i + 1..], remained - (|ps[i].body| + 2 + CMD_HDR))
  {
    assert i < |ps| ==> ps[i..][0] == ps[i] && ps[i..][1..] == ps[i + 1..];
  }

  /** The first `i` elements have been accepted and `remained` is left for the others. */
  ghost predicate Taken(ps: seq<Element>, fs: seq<Element>, i: nat, remained: int) {
    i <= |ps| && fs == ps[..i] + Fit(ps[i..], remained)
  }

  lemma NoneTaken(ps: seq<Element>)
    ensures Taken(ps, Fit(ps, IE_MAX_LEN), 0, IE_MAX_LEN)
  {
    hide Fit;
    assert ps[0..] == ps && ps[..0] == [];
  }

  /** The next element is taken, or the list ends here. */
  lemma TakeStep(ps: seq<Element>, i: nat, remained: int, fs: seq<Element>)
    requires Taken(ps, fs, i, remained)
    ensures i <= |ps| && i <= |fs|
    ensures i == |ps| || remained < |ps[i].body| + CMD_HDR ==> i == |fs| && fs[..i] == fs
    ensures i < |ps| && remained >= |ps[i].body| + CMD_HDR ==>
              |fs| > i && fs[i] == ps[i] && Taken(ps, fs, i + 1, remained - (|ps[i].body| + 2 + CMD_HDR))
  {
    hide Fit;
    UnfoldFit(ps, i, remained);
    if i < |ps| && remained >= |ps[i].body| + CMD_HDR {
      var rest := Fit(ps[i + 1..], remained - (|ps[i].body| + 2 + CMD_HDR));
      assert ps[..i] + ([ps[i]] + rest) == ps[..i + 1] + rest;
    }
  }

  lemma ElementNext(ps: seq<Element>, i: nat)
    requires i < |ps|
    ensures EncodeAll(ps[..i + 1]) == EncodeAll(ps[..i]) + Encode(ps[i])
  {
    assert ps[..i + 1] == ps[..i] + [ps[i]];
    EncodeConcat(ps[..i], [ps[i]]);
    assert EncodeAll([ps[i]]) == Encode(ps[i]) + [] == Encode(ps[i]);
  }

  /** The bytes of the parsed elements, one after the other, as they are compared with the saved. */
  method Collect(out: array<Byte>, bytes: seq<Byte>, infos: seq<Info>, ghost ps: seq<Element>) returns (len: nat)
    requires Points(bytes, infos, ps) && |EncodeAll(ps)| <= out.Length
    modifies out
    ensures len <= out.Length && out[..len] == EncodeAll(ps)
  {
    hide EncodeAll, Encode;
    len := 0;
    NoCommands(true, 0, ps);
    for i := 0 to |infos|
      invariant len <= out.Length && out[..len] == EncodeAll(ps[..i])
    {
      ElementNext(ps, i);
      EncodePrefix(ps, i + 1);
      var ie := bytes[infos[i].off..infos[i].off + infos[i].len];
      CopyBytes(out, len, ie);
      len := len + |ie|;
    }
    assert ps[..|infos|] == ps;
  }

  lemma EncodePrefix(ps: seq<Element>, i: nat)
    requires i <= |ps|
    ensures |EncodeAll(ps[..i])| <= |EncodeAll(ps)|
  {
    assert ps == ps[..i] + ps[i..];
    EncodeConcat(ps[..i], ps[i..]);
  }

  lemma {:induction false} PickShorter(es: seq<Element>, room: nat)
    ensures |EncodeAll(Pick(es, room))| <= |EncodeAll(es)|
  {
    if es != [] && room > 0 {
      if Storable(es[0]) {
        PickShorter(es[1..], room - 1);
        assert Pick(es, room)[1..] == Pick(es[1..], room - 1);
      } else {
        PickShorter(es[1..], room);
      }
    }
  }

  /** All commands of one update: the deletes, then the adds. */
  method Rebuild(out: array<Byte>, flag: nat, oldBytes: seq<Byte>, bytes: seq<Byte>, infos: seq<Info>,
                 ghost old_: seq<Element>, ghost ps: seq<Element>)
    returns (total: nat, kept: seq<Byte>)
    requires flag < 256 && Stored(old_) && oldBytes == EncodeAll(old_) && Points(bytes, infos, ps)
    requires |EncodeCommands(Update(old_, flag, ps))| <= out.Length
    modifies out
    ensures total <= out.Length && out[..total] == EncodeCommands(Update(old_, flag, ps))
    ensures kept == EncodeAll(Fit(ps, IE_MAX_LEN))
    ensures total > 0 <==> Update(old_, flag, ps) != []
  {
    hide Pick, Fit, Stored, EncodeAll, EncodeCommands, Commands, Encode;
    CommandsConcat(Commands(false, flag, old_), Commands(true, flag, Fit(ps, IE_MAX_LEN)));
    NoCommands(false, flag, old_);
    EncodeZero(old_);
    total := 0;
    if oldBytes != [] {
      Reparsed(old_);
      var oldInfos := ParseVndrIes(oldBytes);
      total := EmitDels(out, flag, oldBytes, oldInfos.value, old_);
    }
    assert old_ == [] ==> old_[..0] == old_;
    total, kept := EmitAdds(out, total, flag, bytes, infos, ps);
  }

  lemma Reparsed(es: seq<Element>)
    requires Stored(es)
    ensures Pick(es, PARSE_LIMIT) == es && Whole(EncodeAll(es)) == (es, []) && !WalksPast(EncodeAll(es))
  {
    PickStored(es, PARSE_LIMIT);
    WholeRoundTrip(es);
  }

  lemma EncodeZero(es: seq<Element>)
    ensures |EncodeAll(es)| == 0 <==> es == []
    ensures es == [] ==> Pick(es, PARSE_LIMIT) == []
  {}

  class Vif {
    /** The used part of each frame type's 512-byte buffer. */
    var saved: map<nat, seq<Byte>>
    ghost var elements: map<nat, seq<Element>>
    ghost var fw: Held

    ghost function View(): (s: Ies)
      reads this
    {
      Ies(elements, fw)
    }

    ghost predicate Valid()
      reads this
    {
      Shape(View()) && saved.Keys == FLAGS && forall f :: f in FLAGS ==> saved[f] == EncodeAll(elements[f])
    }

    constructor ()
      ensures Valid() && View() == NO_IES && Agrees(View())
    {
      saved := map f | f in FLAGS :: [];
      elements, fw := NO_IES.saved, NO_IES.fw;
      new;
      NothingSaved();
    }

    /** Follows SetMgmtIe on elements and firmware alike, whatever happened before, with the whole
        elements of any bytes; every write stays inside the 2048-byte command buffer. It stops where the
        walk over the new bytes would read past them. Only a refusal by the firmware ends an agreement. */
    method SetMgmtIes(flag: nat, buf: Option<seq<Byte>>, len: nat, fwOk: bool) returns (err: Err)
      requires Valid() && (buf.Some? ==> len == |buf.value|)
      modifies this
      ensures Valid()
      ensures err == PastEnd <==> flag in FLAGS && len <= IE_MAX_LEN && buf.Some? && WalksPast(buf.value)
      ensures err == PastEnd ==> View() == old(View())
      ensures err != PastEnd ==> var bytes := if buf.None? then [] else buf.value;
        (View(), err) == SetMgmtIe(old(View()), flag, len, Whole(bytes).0, fwOk)
      ensures Agrees(old(View())) && err != Failed ==> Agrees(View())
    {
      hide Pick, Fit, Stored, EncodeAll, EncodeCommands, Commands, Update, Unchanged, Replace, Agrees, Shape, Points;
      hide AgreesOn, NothingExtra, Whole, WalksPast;
      ghost var s0 := View();
      var bytes := if buf.None? then [] else buf.value;
      if Agrees(s0) { CallKeepsAgreementIff(s0, flag, len, Whole(bytes).0, fwOk); }
      NoPastEnd(s0, flag, len, Whole(bytes).0, fwOk);
      NothingToWalk();
      if flag !in FLAGS { return NotPermitted; }
      if len > IE_MAX_LEN { return NoSpace; }
      err := Change(flag, len, bytes, fwOk);
    }

    static lemma NoPastEnd(s: Ies, flag: nat, len: nat, es: seq<Element>, fwOk: bool)
      requires Shape(s)
      ensures SetMgmtIe(s, flag, len, es, fwOk).1 != PastEnd
    {
      hide Pick, Fit, Stored, Update, Unchanged, Receive, EncodeCommands;
    }

    static lemma NothingToWalk()
      ensures !WalksPast([]) && Whole([]).0 == [] && Pick([], PARSE_LIMIT) == []
    {}

    /** The same for a frame type that has a buffer and bytes that fit it. */
    method Change(flag: nat, ghost len: nat, bytes: seq<Byte>, fwOk: bool) returns (err: Err)
      requires Valid() && flag in FLAGS && len <= IE_MAX_LEN && |bytes| <= IE_MAX_LEN
      modifies this
      ensures Valid() && (err == PastEnd <==> WalksPast(bytes))
      ensures err == PastEnd ==> View() == old(View())
      ensures err != PastEnd ==> (View(), err) == SetMgmtIe(old(View()), flag, len, Whole(bytes).0, fwOk)
    {
      hide Pick, Fit, Stored, EncodeAll, EncodeCommands, Commands, Update, Unchanged, Replace, Agrees, Shape, Points;
      hide AgreesOn, NothingExtra, Whole, WalksPast;
      ghost var s0, es := View(), Whole(bytes).0;
      var iovar := new Byte[EXTRA_BUF_MAX](_ => 0);
      var parsed, parsedLen := ParseNew(iovar, bytes);
      if parsed.None? { return PastEnd; }
      CallAgreesIff(s0, flag, len, es, fwOk, flag);
      NoPastEnd(s0, flag, len, es, fwOk);
      ShapeAt(s0, flag);
      ghost var ps, old_ := Pick(es, PARSE_LIMIT), s0.saved[flag];
      CommandsFitBuffer(old_, flag, es);
      WhenUnchanged(old_, ps);
      if saved[flag] != [] && parsedLen > 0 && parsedLen == |saved[flag]| && iovar[..parsedLen] == saved[flag] {
        return Ok;
      }
      var total, kept := Rebuild(iovar, flag, saved[flag], bytes, parsed.value, old_, ps);
      err := Commit(flag, kept, iovar[..total], fwOk, ps);
    }

    static lemma WhenUnchanged(old_: seq<Element>, ps: seq<Element>)
      ensures Unchanged(old_, ps) <==>
        EncodeAll(old_) != [] && |EncodeAll(ps)| > 0 && EncodeAll(ps) == EncodeAll(old_)
    {
      EncodeZero(ps);
      EncodeZero(old_);
    }

    static method ParseNew(iovar: array<Byte>, bytes: seq<Byte>) returns (r: Option<seq<Info>>, len: nat)
      requires |bytes| <= iovar.Length
      modifies iovar
      ensures r.None? <==> WalksPast(bytes)
      ensures r.Some? ==>
        && Points(bytes, r.value, Pick(Whole(bytes).0, PARSE_LIMIT))
        && len <= iovar.Length && iovar[..len] == EncodeAll(Pick(Whole(bytes).0, PARSE_LIMIT))
    {
      hide Pick, EncodeAll, Whole, WalksPast;
      NothingToWalk();
      EncodeNothing();
      r, len := Some([]), 0;
      if bytes != [] {
        r := ParseVndrIes(bytes);
        if r.Some? {
          ghost var es := Whole(bytes).0;
          WholeSplits(bytes);
          PickShorter(es, PARSE_LIMIT);
          len := Collect(iovar, bytes, r.value, Pick(es, PARSE_LIMIT));
        }
      }
    }

    /** Stores the kept bytes and sends the commands, if there are any. */
    method Commit(flag: nat, kept: seq<Byte>, commands: seq<Byte>, fwOk: bool, ghost ps: seq<Element>)
      returns (err: Err)
      requires flag in FLAGS && flag in elements
      requires kept == EncodeAll(Fit(ps, IE_MAX_LEN))
      requires commands == EncodeCommands(Update(elements[flag], flag, ps))
      requires commands != [] <==> Update(elements[flag], flag, ps) != []
      modifies this
      ensures (View(), err) == Replace(old(View()), flag, ps, fwOk)
      ensures saved == old(saved)[flag := kept] && elements == old(elements)[flag := Fit(ps, IE_MAX_LEN)]
    {
      hide Fit, EncodeAll, EncodeCommands, Receive, Update;
      saved := saved[flag := kept];
      elements := elements[flag := Fit(ps, IE_MAX_LEN)];
      err := Ok;
      if commands != [] {
        if fwOk {
          fw := Receive(fw, commands);
        } else {
          err := Failed;
        }
      }
    }
  }
}
