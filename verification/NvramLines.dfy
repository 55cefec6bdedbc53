/** What the lines of an NVRAM text mean, put together from their parts (wifi-bcm4350/src/firmware.c:66-189).
    The characters and names here are written out once more, as numbers and texts of their own. */
module NvramLines {
  import opened Basics
  import opened NvramSpec
  import opened NvramReading

  // ----- characters

  predicate Printable(c: Byte) { 32 <= c <= 126 && c != '#' as int }

  predicate InKey(c: Byte) { Printable(c) && c != ' ' as int && c != '=' as int }

  /** Between entries: white space, control characters and what is not ASCII. */
  predicate Blank(c: Byte) { c <= 32 || c >= 127 }

  lemma Characters(c: Byte)
    ensures IsNvramChar(c) <==> Printable(c)
    ensures IsKeyChar(c) <==> InKey(c)
    ensures IsWhitespace(c) <==> c == ' ' as int || c == '\t' as int || c == '\n' as int || c == '\r' as int
    ensures EndsLine(c) <==> c == 0 || c == '\n' as int
    ensures HASH == '#' as int && EQUALS == '=' as int && SPACE == ' ' as int && NUL == 0 && NEWLINE == '\n' as int
    ensures MAX_NVRAM_SIZE == 64000
  {}

  /** Keys whose entries are left out. */
  predicate LeftOut(key: seq<Byte>, stripMac: bool) {
    StartsWith(key, Ascii("RAW1")) || (stripMac && StartsWith(key, Ascii("macaddr")))
  }

  lemma ExcludedIsLeftOut(key: seq<Byte>, stripMac: bool)
    ensures Excluded(key, stripMac) <==> LeftOut(key, stripMac)
  {
    Names();
    PrefixIsStart(key, RAW1);
    PrefixIsStart(key, MACADDR);
    hide StartsWith, HasPrefix, Ascii;
  }

  lemma WellformedIff(key: seq<Byte>, value: seq<Byte>, stripMac: bool)
    ensures WellformedPair(key, value, stripMac) <==>
      (forall c :: c in key ==> InKey(c)) && (forall c :: c in value ==> Printable(c)) && !LeftOut(key, stripMac)
  {
    ExcludedIsLeftOut(key, stripMac);
    hide Excluded, LeftOut;
  }

  // ----- lines

  /** What may follow the blanks at the start of a line: nothing, an entry, or a word without '='. */
  datatype Body = Nothing | Pair(key: seq<Byte>, value: seq<Byte>) | Word(word: seq<Byte>)

  datatype Line = Line(blanks: seq<Byte>, body: Body, rest: seq<Byte>)

  function BodyText(b: Body): (s: seq<Byte>) {
    match b
    case Nothing => []
    case Pair(key, value) => key + Ascii("=") + value
    case Word(word) => word
  }

  function LineText(l: Line): (s: seq<Byte>) { l.blanks + BodyText(l.body) + l.rest }

  /** Blanks, up to a comment. */
  predicate Ignored(s: seq<Byte>) { s == [] || s[0] == '#' as int || (Blank(s[0]) && Ignored(s[1..])) }

  predicate Sound(l: Line) {
    && (forall c :: c in LineText(l) ==> c != 0 && c != '\n' as int)
    && (forall c :: c in l.blanks ==> Blank(c))
    && match l.body
       case Nothing => l.rest == [] || l.rest[0] == '#' as int
       case Pair(key, value) =>
         && (forall c :: c in key ==> InKey(c)) && (forall c :: c in value ==> Printable(c))
         && (l.rest == [] || !Printable(l.rest[0])) && Ignored(l.rest)
       case Word(word) =>
         && word != [] && (forall c :: c in word ==> InKey(c))
         && (l.rest == [] || (!InKey(l.rest[0]) && l.rest[0] != '=' as int))
  }

  /** The entry a line has: its key, and the entry as it stands unless it is left out. */
  function Meaning(l: Line, stripMac: bool): (items: seq<Item>) {
    if !l.body.Pair? then []
    else if LeftOut(l.body.key, stripMac) then [Item(l.body.key, [], false)]
    else [Item(l.body.key, BodyText(l.body), true)]
  }

  // ----- one line at its place

  lemma {:induction false} BlanksAreSkipped(data: seq<Byte>, p: nat, q: nat, n: nat, stripMac: bool)
    requires p <= q <= n < |data| && EndsLine(data[n]) && forall i :: p <= i < q ==> Blank(data[i])
    ensures LineItems(data, p, n, stripMac) == LineItems(data, q, n, stripMac)
    decreases q - p
  {
    if p < q { BlanksAreSkipped(data, p + 1, q, n, stripMac); }
  }

  lemma {:induction false} IgnoredIsNothing(data: seq<Byte>, p: nat, n: nat, stripMac: bool)
    requires p <= n < |data| && EndsLine(data[n]) && Ignored(data[p..n])
    ensures LineItems(data, p, n, stripMac) == []
    decreases n - p
  {
    if p < n && data[p] != HASH {
      assert data[p..n][0] == data[p] && data[p..n][1..] == data[p + 1..n];
      IgnoredIsNothing(data, p + 1, n, stripMac);
    }
  }

  lemma KeyEndsAt(data: seq<Byte>, p: nat, k: nat, n: nat)
    requires p <= k <= n < |data| && EndsLine(data[n]) && !IsKeyChar(data[k])
    requires forall i :: p <= i < k ==> IsKeyChar(data[i])
    ensures KeyEnd(data, p, n) == k
  {}

  lemma ValueEndsAt(data: seq<Byte>, p: nat, v: nat, n: nat)
    requires p <= v <= n < |data| && EndsLine(data[n]) && !IsNvramChar(data[v])
    requires forall i :: p <= i < v ==> IsNvramChar(data[i])
    ensures ValueEnd(data, p, n) == v
  {}

  lemma WordIsNothing(data: seq<Byte>, p: nat, k: nat, n: nat, stripMac: bool)
    requires p < k <= n < |data| && EndsLine(data[n]) && forall i :: p <= i < k ==> IsKeyChar(data[i])
    requires !IsKeyChar(data[k]) && data[k] != EQUALS
    ensures LineItems(data, p, n, stripMac) == []
  {
    KeyEndsAt(data, p, k, n);
    hide KeyEnd;
  }

  lemma PairIsRead(data: seq<Byte>, p: nat, k: nat, v: nat, n: nat, stripMac: bool)
    requires p <= k < v <= n < |data| && EndsLine(data[n]) && forall i :: p <= i < k ==> IsKeyChar(data[i])
    requires data[k] == EQUALS && !IsNvramChar(data[v]) && forall i :: k < i < v ==> IsNvramChar(data[i])
    ensures LineItems(data, p, n, stripMac) ==
      if LeftOut(data[p..k], stripMac) then [Item(data[p..k], [], false)]
      else [Item(data[p..k], data[p..v], true)] + LineItems(data, v, n, stripMac)
  {
    KeyEndsAt(data, p, k, n);
    ValueEndsAt(data, k + 1, v, n);
    ExcludedIsLeftOut(data[p..k], stripMac);
    hide KeyEnd, ValueEnd, Excluded, LeftOut;
  }

  /** The parts of a line stand one behind the other. */
  lemma LineParts(data: seq<Byte>, p: nat, n: nat, a: seq<Byte>, b: seq<Byte>, c: seq<Byte>)
    requires p <= n < |data| && data[p..n] == a + b + c
    ensures var q := p + |a|; var m := q + |b|; q <= m <= n && data[p..q] == a && data[q..m] == b && data[m..n] == c
    ensures c != [] ==> p + |a| + |b| < n && data[p + |a| + |b|] == c[0]
  {
    var s := data[p..n];
    var q := p + |a|;
    var m := q + |b|;
    assert a == s[..q - p] && b == s[q - p..m - p] && c == s[m - p..];
    assert |s| == n - p && forall i :: 0 <= i < |s| ==> s[i] == data[p + i];
    assert data[p..q] == s[..q - p] && data[q..m] == s[q - p..m - p] && data[m..n] == s[m - p..];
  }

  lemma WordMeans(data: seq<Byte>, q: nat, m: nat, n: nat, word: seq<Byte>, stripMac: bool)
    requires q <= m <= n < |data| && EndsLine(data[n]) && data[q..m] == word
    requires word != [] && (forall c :: c in word ==> InKey(c)) && !InKey(data[m]) && data[m] != EQUALS
    ensures LineItems(data, q, n, stripMac) == []
  {
    forall i | q <= i < m ensures IsKeyChar(data[i]) { assert data[i] == word[i - q] && word[i - q] in word; }
    hide LineItems;
    WordIsNothing(data, q, m, n, stripMac);
  }

  lemma PairMeans(data: seq<Byte>, q: nat, m: nat, n: nat, key: seq<Byte>, value: seq<Byte>, stripMac: bool)
    requires q <= m <= n < |data| && EndsLine(data[n]) && data[q..m] == key + [EQUALS] + value
    requires (forall c :: c in key ==> InKey(c)) && (forall c :: c in value ==> Printable(c)) && !Printable(data[m])
    ensures LineItems(data, q, n, stripMac) ==
      if LeftOut(key, stripMac) then [Item(key, [], false)]
      else [Item(key, key + [EQUALS] + value, true)] + LineItems(data, m, n, stripMac)
  {
    hide LineItems, LeftOut;
    var k := q + |key|;
    LineParts(data, q, m, key, [EQUALS], value);
    forall i | q <= i < k ensures IsKeyChar(data[i]) { assert data[i] == key[i - q] && key[i - q] in key; }
    forall i | k < i < m ensures IsNvramChar(data[i]) {
      assert data[i] == value[i - k - 1] && value[i - k - 1] in value;
    }
    assert data[k] == data[k..k + 1][0];
    PairIsRead(data, q, k, m, n, stripMac);
  }

  /** A line, wherever it stands, means what it is made of. */
  lemma LineMeans(data: seq<Byte>, p: nat, n: nat, l: Line, stripMac: bool)
    requires p <= n < |data| && EndsLine(data[n]) && data[p..n] == LineText(l) && Sound(l)
    ensures LineItems(data, p, n, stripMac) == Meaning(l, stripMac)
  {
    hide LineItems, Ignored, LeftOut, Ascii;
    var q := p + |l.blanks|;
    var m := q + |BodyText(l.body)|;
    LineParts(data, p, n, l.blanks, BodyText(l.body), l.rest);
    forall i | p <= i < q ensures Blank(data[i]) { assert data[i] == l.blanks[i - p] && l.blanks[i - p] in l.blanks; }
    BlanksAreSkipped(data, p, q, n, stripMac);
    match l.body
    case Nothing =>
      CommentIsIgnored(l.rest);
      IgnoredIsNothing(data, q, n, stripMac);
    case Word(word) => WordMeans(data, q, m, n, word, stripMac);
    case Pair(key, value) =>
      EqualsSign();
      IgnoredIsNothing(data, m, n, stripMac);
      PairMeans(data, q, m, n, key, value, stripMac);
  }

  lemma CommentIsIgnored(s: seq<Byte>)
    requires s == [] || s[0] == HASH
    ensures Ignored(s)
  {}

  lemma EqualsSign()
    ensures Ascii("=") == [EQUALS]
  {}

  // ----- whole texts

  /** The lines, each with its end, and the final NUL. */
  function Text(lines: seq<Line>): (data: seq<Byte>)
    ensures Terminated(data) && data != []
  {
    if lines == [] then [0] else LineText(lines[0]) + Ascii("\n") + Text(lines[1..])
  }

  function Meanings(lines: seq<Line>, stripMac: bool): (items: seq<Item>) {
    if lines == [] then [] else Meaning(lines[0], stripMac) + Meanings(lines[1..], stripMac)
  }

  /** A text means what its lines mean, one after the other: comments, blank lines, words without '=' and
      what stands around an entry contribute nothing. */
  lemma {:induction false} TextMeans(pre: seq<Byte>, lines: seq<Line>, stripMac: bool)
    requires forall l :: l in lines ==> Sound(l)
    ensures Terminated(pre + Text(lines)) && ItemsFrom(pre + Text(lines), |pre|, stripMac) == Meanings(lines, stripMac)
    decreases |lines|
  {
    hide *;
    var data := pre + Text(lines);
    TerminatedBehind(pre, Text(lines));
    if lines == [] {
      NoLines(lines, stripMac);
      EndOfText(data, |pre|, stripMac);
    } else {
      var l, rest := lines[0], Text(lines[1..]);
      var line := LineText(l) + Ascii("\n");
      NextLine(lines, stripMac);
      assert l in lines && data == pre + line + rest;
      FirstLine(pre, l, rest, stripMac);
      TextMeans(pre + line, lines[1..], stripMac);
    }
  }

  lemma TerminatedBehind(pre: seq<Byte>, data: seq<Byte>)
    requires Terminated(data) && data != []
    ensures Terminated(pre + data)
  {}

  lemma NoLines(lines: seq<Line>, stripMac: bool)
    requires lines == []
    ensures Text(lines) == [NUL] && Meanings(lines, stripMac) == []
  {}

  lemma NextLine(lines: seq<Line>, stripMac: bool)
    requires lines != []
    ensures Text(lines) == LineText(lines[0]) + Ascii("\n") + Text(lines[1..])
    ensures Meanings(lines, stripMac) == Meaning(lines[0], stripMac) + Meanings(lines[1..], stripMac)
  {
    hide LineText, Meaning, Ascii;
  }

  lemma EndOfText(data: seq<Byte>, p: nat, stripMac: bool)
    requires Terminated(data) && p + 1 == |data|
    ensures ItemsFrom(data, p, stripMac) == []
  {
    assert LineEnd(data, p) == p;
    assert ItemsFrom(data, p + 1, stripMac) == [];
  }

  lemma FirstLine(pre: seq<Byte>, l: Line, rest: seq<Byte>, stripMac: bool)
    requires Sound(l) && Terminated(rest) && rest != []
    ensures var data := pre + (LineText(l) + Ascii("\n")) + rest; var next := |pre| + |LineText(l)| + 1;
      && Terminated(data) && next <= |data|
      && ItemsFrom(data, |pre|, stripMac) == Meaning(l, stripMac) + ItemsFrom(data, next, stripMac)
  {
    var s := LineText(l);
    var data, p, n := pre + (s + Ascii("\n")) + rest, |pre|, |pre| + |s|;
    assert data[p..n] == s && data[n] == '\n' as int;
    forall i | p <= i < n ensures !EndsLine(data[i]) { assert data[i] == s[i - p] && s[i - p] in s; }
    hide LineText, Sound, Meaning;
    LineMeans(data, p, n, l, stripMac);
    assert LineEnd(data, p) == n;
    hide LineEnd, LineItems;
  }
}
