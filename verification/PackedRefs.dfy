/**
 tag_db.cc, ParsePack: the packed-refs file, edited in place so that each tag's name becomes a C string inside the
 buffer.

 The buffer holds the file's n bytes and one NUL after them.
 */
module PackedRefs {
  import opened Basics
  import opened ByteStrings
  import opened TagDb

  const NUL: Byte := 0
  const LF: Byte := 10
  const CR: Byte := 13
  const SPACE: Byte := 32
  const HASH: Byte := 35
  const CARET: Byte := 94
  const HEX := 40

  /** "refs/tags/" */
  const TAG_PREFIX: Str := [114, 101, 102, 115, 47, 116, 97, 103, 115, 47]

  /* ---- object ids ---- */

  /** kUnhex. */
  function Unhex(b: Byte): (r: Byte)
    ensures r < 16
  {
    var x: int := b;
    if 48 <= x <= 57 then x - 48 else if 65 <= x <= 70 then x - 55 else if 97 <= x <= 102 then x - 87 else 0
  }

  /** Digits stand for themselves and letters of either case for ten to fifteen. */
  lemma UnhexDigits(d: nat)
    ensures d < 10 ==> Unhex(48 + d) == d
    ensures d < 6 ==> Unhex(65 + d) == 10 + d == Unhex(97 + d)
  {
  }

  /** The bytes that pairs of hex digits stand for. */
  function Unhexed(s: Str): (r: Str)
    requires |s| % 2 == 0
    ensures |r| == |s| / 2
  {
    if s == [] then [] else [16 * Unhex(s[0]) + Unhex(s[1])] + Unhexed(s[2..])
  }

  function HexDigit(d: Byte): (r: Byte)
    requires d < 16
    ensures Unhex(r) == d && r != CARET
  {
    if d < 10 then d + 48 else d + 87
  }

  function Hexed(id: Str): (r: Str)
    ensures |r| == 2 * |id|
  {
    if id == [] then [] else [HexDigit(id[0] / 16), HexDigit(id[0] % 16)] + Hexed(id[1..])
  }

  lemma {:induction false} UnhexUndoesHex(id: Str)
    ensures Unhexed(Hexed(id)) == id
  {
    if id != [] {
      var s := Hexed(id);
      assert s[2..] == Hexed(id[1..]);
      UnhexUndoesHex(id[1..]);
    }
  }

  lemma {:induction false} UnhexedSnoc(s: Str, a: Byte, b: Byte)
    requires |s| % 2 == 0
    ensures Unhexed(s + [a, b]) == Unhexed(s) + [16 * Unhex(a) + Unhex(b)]
  {
    if s == [] {
      assert s + [a, b] == [a, b] && [a, b][2..] == [];
    } else {
      assert (s + [a, b])[2..] == s[2..] + [a, b];
      UnhexedSnoc(s[2..], a, b);
    }
  }

  /** ParseOid's loop. */
  method ParseOid(pack: array<Byte>, p: nat) returns (oid: Str)
    requires p + HEX <= pack.Length
    ensures oid == Unhexed(pack[p..p + HEX])
  {
    oid := [];
    var i := 0;
    while i != HEX
      invariant 0 <= i <= HEX && i % 2 == 0
      invariant oid == Unhexed(pack[p..p + i])
    {
      assert pack[p..p + i + 2] == pack[p..p + i] + [pack[p + i], pack[p + i + 1]];
      UnhexedSnoc(pack[p..p + i], pack[p + i], pack[p + i + 1]);
      oid := oid + [16 * Unhex(pack[p + i]) + Unhex(pack[p + i + 1])];
      i := i + 2;
    }
  }

  /* ---- what the text means ---- */

  /** strchr(s, '\n') on a NUL-terminated s. */
  function StrChr(s: Str): (r: Option<nat>)
    ensures r.Some? ==> r.value < |s| && s[r.value] == LF && NUL !in s[..r.value] && LF !in s[..r.value]
  {
    if s == [] || s[0] == NUL then None
    else if s[0] == LF then Some(0)
    else
      match StrChr(s[1..])
      case None => None
      case Some(k) =>
        assert s[..k + 1] == [s[0]] + s[1..][..k];
        Some(k + 1)
  }

  lemma {:induction false} StrChrIn(a: Str, b: Str)
    requires NUL !in a && LF !in a
    ensures StrChr(a + [LF] + b) == Some(|a|)
  {
    if a == [] {
      assert a + [LF] + b == [LF] + b;
    } else {
      assert (a + [LF] + b)[1..] == a[1..] + [LF] + b;
      assert a[0] in a && forall x :: x in a[1..] ==> x in a;
      StrChrIn(a[1..], b);
    }
  }

  lemma {:induction false} StrChrAt(s: Str, k: nat)
    requires k < |s| && NUL !in s[..k] && LF !in s[..k]
    ensures s[k] == LF ==> StrChr(s) == Some(k)
    ensures s[k] == NUL ==> StrChr(s) == None
  {
    if k > 0 {
      assert s[0] in s[..k];
      assert s[1..][..k - 1] == s[..k][1..];
      assert forall x :: x in s[..k][1..] ==> x in s[..k];
      StrChrAt(s[1..], k - 1);
    }
  }

  lemma {:induction false} StrChrNone(s: Str)
    requires NUL !in s && LF !in s
    ensures StrChr(s) == None
  {
    if s != [] {
      assert s[0] in s && forall x :: x in s[1..] ==> x in s;
      StrChrNone(s[1..]);
    }
  }

  /** StripTag. */
  function StripTag(ref: Str): (r: Option<Str>)
    ensures r.Some? <==> |ref| >= |TAG_PREFIX| && ref[..|TAG_PREFIX|] == TAG_PREFIX
  {
    if |ref| >= |TAG_PREFIX| && ref[..|TAG_PREFIX|] == TAG_PREFIX then Some(ref[|TAG_PREFIX|..]) else None
  }

  /** One carriage return before the newline does not belong to the name. */
  function StripCr(s: Str): Str {
    if s != [] && s[|s| - 1] == CR then s[..|s| - 1] else s
  }

  /** A ref, the id it stands for and the bytes it takes up. */
  datatype Line = Line(ref: Str, id: Str, used: nat)

  /** An id and the bytes read after the ref's line to find it. */
  datatype Peeled = Peeled(id: Str, used: nat)

  /** The optional line with the peeled id, at the start of x. */
  function ParsePeeled(id: Str, x: Str): (r: Option<Peeled>)
    ensures r.Some? ==> r.value.used <= |x|
  {
    if x == [] || x[0] != CARET then Some(Peeled(id, 0))
    else if |x| < 1 + HEX then None
    else if |x| == 1 + HEX then Some(Peeled(Unhexed(x[1..]), |x|))
    else
      match StrChr(x[1 + HEX..])
      case None => None
      case Some(j) => Some(Peeled(Unhexed(x[1..1 + HEX]), 1 + HEX + j + 1))
  }

  /** The id and the length of what stands between the space and the newline. */
  datatype Head = Head(id: Str, length: nat)

  function ParseHead(t: Str): (r: Option<Head>)
    ensures r.Some? ==> HEX + 1 + r.value.length < |t| && NUL !in t[HEX + 1..][..r.value.length]
  {
    if |t| <= HEX || t[HEX] != SPACE then None
    else match StrChr(t[HEX + 1..]) case None => None case Some(k) => Some(Head(Unhexed(t[..HEX]), k))
  }

  /** One turn of the loop; None is a failed VERIFY. */
  function ParseLine(t: Str): (r: Option<Line>)
    ensures r.Some? ==> HEX < r.value.used <= |t|
  {
    match ParseHead(t)
    case None => None
    case Some(h) =>
      var next := HEX + 1 + h.length + 1;
      match ParsePeeled(h.id, t[next..])
      case None => None
      case Some(q) => Some(Line(StripCr(t[HEX + 1..][..h.length]), q.id, next + q.used))
  }

  function TagOf(ref: Str, id: Str): seq<Tag> {
    match StripTag(ref) case None => [] case Some(name) => [Tag(name, id)]
  }

  function Prepend(tags: seq<Tag>, rest: Option<seq<Tag>>): Option<seq<Tag>> {
    match rest case None => None case Some(more) => Some(tags + more)
  }

  function ParseLines(t: Str): Option<seq<Tag>>
    decreases |t|
  {
    if t == [] then Some([])
    else
      match ParseLine(t)
      case None => None
      case Some(l) => Prepend(TagOf(l.ref, l.id), ParseLines(t[l.used..]))
  }

  /** ParsePack as a function of the text: without a complete header line there are no tags. */
  function ParseText(t: Str): Option<seq<Tag>> {
    if t == [] || t[0] != HASH then Some([])
    else match StrChr(t) case None => Some([]) case Some(k) => ParseLines(t[k + 1..])
  }

  /* ---- what is malformed ---- */

  /** No newline before the first NUL. */
  ghost predicate NoNewline(s: Str) { forall i :: 0 <= i < |s| && s[i] == 10 ==> 0 in s[..i] }

  lemma StrChrFails(s: Str)
    ensures StrChr(s) == None <==> NoNewline(s)
  {
    if StrChr(s) == None {
      forall i | 0 <= i < |s| && s[i] == 10 ensures 0 in s[..i] { FirstNul(s, i); }
    }
  }

  lemma {:induction false} FirstNul(s: Str, i: nat)
    requires StrChr(s) == None && i < |s| && s[i] == 10
    ensures 0 in s[..i]
    decreases i
  {
    if s[0] == 0 {
      assert i > 0 && s[..i][0] == 0;
    } else {
      assert i > 0;
      FirstNul(s[1..], i - 1);
      assert s[..i][1..] == s[1..][..i - 1];
    }
  }

  /** A line is refused iff the id, the space or the newline is missing, or the line after '^' is cut short. */
  lemma LineRefused(t: Str)
    ensures ParseLine(t) == None <==>
            || |t| <= 40 || t[40] != 32 || NoNewline(t[41..])
            || (exists k: nat :: LineLength(t, k) && PeeledRefused(t[41 + k + 1..]))
  {
    hide StrChr, Unhexed, StripCr;
    if |t| > 40 {
      StrChrFails(t[41..]);
      forall k: nat | LineLength(t, k) ensures StrChr(t[41..]) == Some(k) { StrChrAt(t[41..], k); }
      if StrChr(t[41..]).Some? {
        var k := StrChr(t[41..]).value;
        assert LineLength(t, k);
        PeeledRefusedIff(Unhexed(t[..HEX]), t[41 + k + 1..]);
      }
    }
  }

  /** The first newline after the space ends a ref of length k. */
  ghost predicate LineLength(t: Str, k: nat) {
    41 + k < |t| && t[41..][k] == 10 && 10 !in t[41..][..k] && 0 !in t[41..][..k]
  }

  ghost predicate PeeledRefused(x: Str) {
    x != [] && x[0] == 94 && (|x| < 41 || (|x| > 41 && NoNewline(x[41..])))
  }

  lemma PeeledRefusedIff(id: Str, x: Str)
    ensures ParsePeeled(id, x) == None <==> PeeledRefused(x)
  {
    hide StrChr, Unhexed;
    if |x| > 41 { StrChrFails(x[41..]); }
  }

  /* ---- parsing undoes printing ---- */

  /** A ref of the file; peeled is the commit an annotated tag points to. */
  datatype Entry = Entry(ref: Str, id: Str, peeled: Option<Str>, crlf: bool)

  predicate WellFormed(e: Entry) {
    && 0 !in e.ref && 10 !in e.ref
    && (e.crlf || e.ref == [] || e.ref[|e.ref| - 1] != 13)
    && |e.id| == 20 && (e.peeled.Some? ==> |e.peeled.value| == 20)
  }

  /** The ref and, in a file with Windows line ends, the carriage return. */
  function Body(e: Entry): Str { if e.crlf then e.ref + [13] else e.ref }

  /** What follows the newline of an entry's first line. */
  function After(e: Entry): Str {
    match e.peeled case None => [] case Some(id) => [94] + Hexed(id) + if e.crlf then [13, 10] else [10]
  }

  /** A packed-refs line: the id in hexadecimal, a space, the ref, a newline, the peeled id after '^'. */
  function RenderEntry(e: Entry): Str {
    Hexed(e.id) + [32] + (Body(e) + [10] + After(e))
  }

  function RenderEntries(entries: seq<Entry>): Str {
    if entries == [] then [] else RenderEntry(entries[0]) + RenderEntries(entries[1..])
  }

  /** The commit that an entry stands for. */
  function Target(e: Entry): Str { match e.peeled case None => e.id case Some(id) => id }

  /** The refs below refs/tags/, without that prefix and with their peeled ids where they have one. */
  function TagsOf(entries: seq<Entry>): seq<Tag> {
    if entries == [] then []
    else
      var ref, rest := entries[0].ref, TagsOf(entries[1..]);
      if |ref| >= 10 && ref[..10] == [114, 101, 102, 115, 47, 116, 97, 103, 115, 47]
      then [Tag(ref[10..], Target(entries[0]))] + rest else rest
  }

  /** The first line of a text, up to its newline. */
  lemma FirstLine(h: Str, body: Str, x: Str)
    requires |h| == HEX && NUL !in body && LF !in body
    ensures var t := h + [SPACE] + (body + [LF] + x);
            && |t| == HEX + 2 + |body| + |x| && t[..HEX] == h && t[HEX] == SPACE
            && StrChr(t[HEX + 1..]) == Some(|body|) && t[HEX + 1..][..|body|] == body
            && t[HEX + 2 + |body|..] == x
  {
    hide StrChr;
    var t := h + [SPACE] + (body + [LF] + x);
    assert t[..HEX] == h;
    assert t[HEX + 1..] == body + [LF] + x;
    StrChrIn(body, x);
    assert (body + [LF] + x)[..|body|] == body;
    assert t[HEX + 2 + |body|..] == (body + [LF] + x)[|body| + 1..] == x;
  }

  lemma LineParses(h: Str, body: Str, x: Str)
    requires |h| == HEX && NUL !in body && LF !in body
    ensures ParseLine(h + [SPACE] + (body + [LF] + x)) ==
            match ParsePeeled(Unhexed(h), x)
            case None => None
            case Some(q) => Some(Line(StripCr(body), q.id, HEX + 2 + |body| + q.used))
  {
    hide StrChr, StripCr, Unhexed, ParsePeeled;
    FirstLine(h, body, x);
  }

  lemma PeeledParses(id: Str, peeled: Str, tail: Str, rest: Str)
    requires |peeled| == HEX && NUL !in tail && LF !in tail
    ensures ParsePeeled(id, [CARET] + peeled + (tail + [LF] + rest)) == Some(Peeled(Unhexed(peeled), HEX + 2 + |tail|))
  {
    hide StrChr, Unhexed;
    var x := [CARET] + peeled + (tail + [LF] + rest);
    assert x[1..1 + HEX] == peeled;
    assert x[1 + HEX..] == tail + [LF] + rest;
    StrChrIn(tail, rest);
  }

  lemma BodyStrips(e: Entry)
    requires WellFormed(e)
    ensures NUL !in Body(e) && LF !in Body(e) && StripCr(Body(e)) == e.ref
  {
    assert StripCr(Body(e)) == e.ref;
  }

  lemma AfterParses(e: Entry, rest: Str)
    requires WellFormed(e) && (rest == [] || rest[0] != CARET)
    ensures ParsePeeled(e.id, After(e) + rest) == Some(Peeled(Target(e), |After(e)|))
  {
    hide StrChr, Unhexed, Hexed;
    match e.peeled
    case None => assert After(e) + rest == rest;
    case Some(id) =>
      hide ParsePeeled;
      UnhexUndoesHex(id);
      var tail: Str := if e.crlf then [CR] else [];
      assert After(e) + rest == [CARET] + Hexed(id) + (tail + [LF] + rest);
      PeeledParses(e.id, Hexed(id), tail, rest);
  }

  lemma EntryParses(e: Entry, rest: Str)
    requires WellFormed(e) && (rest == [] || rest[0] != CARET)
    ensures ParseLine(RenderEntry(e) + rest) == Some(Line(e.ref, Target(e), |RenderEntry(e)|))
  {
    hide ParseLine, ParsePeeled, StrChr, Unhexed, Hexed, StripCr, Body, After, Target;
    var h, body, after := Hexed(e.id), Body(e), After(e);
    AfterParses(e, rest);
    BodyStrips(e);
    UnhexUndoesHex(e.id);
    Regroup(h, body, after, rest);
    LineParses(h, body, after + rest);
  }

  lemma Regroup(h: Str, body: Str, after: Str, rest: Str)
    ensures h + [SPACE] + (body + [LF] + after) + rest == h + [SPACE] + (body + [LF] + (after + rest))
  {
  }

  lemma EntryStart(entries: seq<Entry>)
    requires forall i :: 0 <= i < |entries| ==> WellFormed(entries[i])
    ensures RenderEntries(entries) == [] || RenderEntries(entries)[0] != CARET
  {
    if entries != [] { assert |Hexed(entries[0].id)| > 0; }
  }

  lemma {:induction false} LinesParse(entries: seq<Entry>)
    requires forall i :: 0 <= i < |entries| ==> WellFormed(entries[i])
    ensures ParseLines(RenderEntries(entries)) == Some(TagsOf(entries))
  {
    hide ParseLine, RenderEntry;
    if entries != [] {
      var e, rest := entries[0], RenderEntries(entries[1..]);
      EntryStart(entries[1..]);
      EntryParses(e, rest);
      assert (RenderEntry(e) + rest)[|RenderEntry(e)|..] == rest;
      LinesParse(entries[1..]);
      assert [] + TagsOf(entries[1..]) == TagsOf(entries[1..]);
    }
  }

  /** Any headed file parses to exactly its refs/tags entries, with the peeled id where there is one. */
  lemma ParseUndoesPrint(header: Str, entries: seq<Entry>)
    requires header != [] && header[0] == 35 && 0 !in header && 10 !in header
    requires forall i :: 0 <= i < |entries| ==> WellFormed(entries[i])
    ensures ParseText(header + [10] + RenderEntries(entries)) == Some(TagsOf(entries))
  {
    hide ParseLines, StrChr, RenderEntries, TagsOf;
    var rest := RenderEntries(entries);
    var t := header + [LF] + rest;
    StrChrIn(header, rest);
    assert t[|header| + 1..] == rest && t[0] == HASH;
    LinesParse(entries);
  }

  lemma NoHeaderNoTags(entries: seq<Entry>)
    requires forall i :: 0 <= i < |entries| ==> WellFormed(entries[i])
    ensures ParseText(RenderEntries(entries)) == Some([])
  {
    if entries != [] {
      var id := entries[0].id;
      assert RenderEntries(entries)[0] == HexDigit(id[0] / 16);
    }
  }

  /* ---- the loop over the buffer ---- */

  /** The C string at k. */
  ghost predicate IsCStr(buf: Str, k: nat, s: Str) {
    k + |s| < |buf| && buf[k..k + |s|] == s && buf[k + |s|] == NUL && NUL !in s
  }

  /** strchr(p, '\n'). */
  method FindEol(pack: array<Byte>, n: nat, p: nat) returns (r: Option<nat>)
    requires p <= n < pack.Length && pack[n] == NUL
    ensures match StrChr(pack[p..n]) case None => r == None case Some(k) => r == Some(p + k)
  {
    hide StrChr;
    var i := p;
    ghost var s := pack[p..n];
    while i < n && pack[i] != NUL && pack[i] != LF
      invariant p <= i <= n
      invariant NUL !in s[..i - p] && LF !in s[..i - p]
    {
      assert s[..i - p + 1] == s[..i - p] + [pack[i]];
      i := i + 1;
    }
    if i == n {
      assert s[..i - p] == s;
      StrChrNone(s);
      return None;
    }
    StrChrAt(s, i - p);
    r := if pack[i] == LF then Some(i) else None;
  }

  lemma PrefixDiffers(ref: Str, i: nat)
    requires i < |TAG_PREFIX| && (i < |ref| ==> ref[i] != TAG_PREFIX[i])
    ensures StripTag(ref) == None
  {
    assert i < |ref| && |ref| >= |TAG_PREFIX| ==> ref[..|TAG_PREFIX|][i] == ref[i];
  }

  /** StripTag on the C string at k. */
  method StripTagAt(pack: array<Byte>, k: nat, ghost ref: Str) returns (r: Option<nat>)
    requires IsCStr(pack[..], k, ref)
    ensures match StripTag(ref) case None => r == None case Some(name) => r == Some(k + |TAG_PREFIX|) && IsCStr(pack[..], k + |TAG_PREFIX|, name)
  {
    assert forall j :: 0 <= j < |ref| ==> pack[k + j] == pack[..][k..k + |ref|][j] == ref[j];
    var i := 0;
    while i != |TAG_PREFIX|
      invariant 0 <= i <= |TAG_PREFIX| && i <= |ref|
      invariant ref[..i] == TAG_PREFIX[..i]
    {
      if pack[k + i] != TAG_PREFIX[i] {
        PrefixDiffers(ref, i);
        return None;
      }
      i := i + 1;
    }
    r := Some(k + |TAG_PREFIX|);
    ghost var name := ref[|TAG_PREFIX|..];
    assert pack[..][k + |TAG_PREFIX|..k + |ref|] == name;
  }

  /** The optional peeled line, from p. */
  method ParsePeeledAt(pack: array<Byte>, n: nat, p: nat, id: Str) returns (r: Option<Peeled>)
    requires p <= n < pack.Length && pack[n] == NUL
    ensures r == ParsePeeled(id, pack[p..n])
  {
    hide StrChr, Unhexed;
    ghost var x := pack[p..n];
    if pack[p] != CARET { return Some(Peeled(id, 0)); }
    if n < p + 1 + HEX { return None; }
    var oid := ParseOid(pack, p + 1);
    assert pack[p + 1..p + 1 + HEX] == x[1..1 + HEX];
    var past := p + 1 + HEX;
    if past == n {
      assert x[1..1 + HEX] == x[1..];
      return Some(Peeled(oid, 1 + HEX));
    }
    var eol := FindEol(pack, n, past);
    assert pack[past..n] == x[1 + HEX..];
    r := match eol case None => None case Some(k) => Some(Peeled(oid, k + 1 - p));
  }

  /** Where a ref's name starts in the buffer, its id, and where the next line starts. */
  datatype RawLine = RawLine(ref: nat, id: Str, next: nat)

  /** Ending the ref at its newline, or at the carriage return before it. */
  method EndRef(pack: array<Byte>, ref: nat, eol: nat)
    requires 0 < ref <= eol < pack.Length && pack[ref - 1] == SPACE && NUL !in pack[ref..eol]
    modifies pack
    ensures IsCStr(pack[..], ref, StripCr(old(pack[ref..eol]))) && ref + |StripCr(old(pack[ref..eol]))| <= eol
    ensures pack[..ref] == old(pack[..ref]) && pack[eol + 1..] == old(pack[eol + 1..])
  {
    ghost var body := pack[ref..eol];
    assert ref < eol ==> pack[eol - 1] == body[|body| - 1];
    ghost var name := StripCr(body);
    assert name == pack[ref..ref + |name|];
    var at := if pack[eol - 1] == CR then eol - 1 else eol;
    pack[at] := NUL;
    assert pack[..][ref..ref + |name|] == name;
  }

  lemma SubSlice(buf: Str, p: nat, n: nat, a: nat, b: nat)
    requires p <= n <= |buf| && a <= b <= n - p
    ensures buf[p + a..p + b] == buf[p..n][a..b] && buf[p + a..n] == buf[p..n][a..] && buf[p..p + b] == buf[p..n][..b]
  {
    var t := buf[p..n];
    assert forall i :: 0 <= i < |t| ==> t[i] == buf[p + i];
    assert buf[p + a..p + b] == t[a..b];
    assert buf[p + a..n] == t[a..];
    assert buf[p..p + b] == t[..b];
  }

  method ParseHeadAt(pack: array<Byte>, n: nat, p: nat) returns (r: Option<Head>)
    requires p <= n < pack.Length && pack[n] == NUL
    ensures r == ParseHead(pack[p..n])
    ensures r.Some? ==> pack[p + HEX] == SPACE
  {
    hide StrChr, Unhexed;
    if n < p + HEX { return None; }
    var id := ParseOid(pack, p);
    SubSlice(pack[..], p, n, 0, HEX);
    if pack[p + HEX] != SPACE { return None; }
    var eol := FindEol(pack, n, p + HEX + 1);
    SubSlice(pack[..], p, n, HEX + 1, n - p);
    r := match eol case None => None case Some(k) => Some(Head(id, k - (p + HEX + 1)));
  }

  method ParseLineAt(pack: array<Byte>, n: nat, p: nat) returns (r: Option<RawLine>)
    requires p <= n < pack.Length && pack[n] == NUL
    modifies pack
    ensures match ParseLine(old(pack[p..n]))
            case None => r == None
            case Some(l) =>
              && r.Some? && r.value.id == l.id && r.value.next == p + l.used
              && p <= r.value.ref && r.value.ref + |l.ref| < r.value.next && IsCStr(pack[..], r.value.ref, l.ref)
              && pack[..p] == old(pack[..p]) && pack[r.value.next..] == old(pack[r.value.next..])
  {
    hide StripCr, IsCStr, ParseHead, ParsePeeled;
    var head := ParseHeadAt(pack, n, p);
    if head.None? { return None; }
    var ref := p + HEX + 1;
    var eol := ref + head.value.length;
    var next := eol + 1;
    ghost var was := pack[..];
    RefInText(was, p, n, head.value.length);
    EndRef(pack, ref, eol);
    LaterBytes(was, pack[..], next, next, n);
    assert pack[..p] == pack[..ref][..p];
    var peeled := ParsePeeledAt(pack, n, next, head.value.id);
    if peeled.None? { return None; }
    r := Some(RawLine(ref, peeled.value.id, next + peeled.value.used));
    LaterBytes(was, pack[..], next, r.value.next, n);
  }

  /** Where the ref and the following line stand in the buffer and in the text from p on. */
  lemma RefInText(buf: Str, p: nat, n: nat, length: nat)
    requires p + HEX + 1 + length < n <= |buf|
    ensures var t, ref := buf[p..n], p + HEX + 1;
            && buf[ref..ref + length] == t[HEX + 1..][..length]
            && buf[ref + length + 1..n] == t[HEX + 1 + length + 1..]
  {
  }

  lemma LaterBytes(was: Str, now: Str, m: nat, next: nat, n: nat)
    requires |was| == |now| && m <= next <= n < |was| && was[m..] == now[m..]
    ensures was[next..n] == now[next..n] && was[next..] == now[next..] && was[n] == now[n]
  {
    assert forall i :: m <= i < |was| ==> was[i] == was[m..][i - m] && now[i] == now[m..][i - m];
  }

  /** A Tag of the source: a pointer to its name, and its id. */
  datatype RawTag = RawTag(name: nat, id: Str)

  /** The tags that raw stands for, all inside buf. */
  ghost predicate Denotes(buf: Str, raw: seq<RawTag>, tags: seq<Tag>) {
    |raw| == |tags| && forall i :: 0 <= i < |raw| ==> raw[i].id == tags[i].id && IsCStr(buf, raw[i].name, tags[i].name)
  }

  lemma CStrKept(buf: Str, p: nat, q: nat, k: nat, s: Str)
    requires p <= q <= |buf|
    ensures IsCStr(buf[..p], k, s) ==> IsCStr(buf[..q], k, s)
    ensures IsCStr(buf, k, s) && k + |s| < q ==> IsCStr(buf[..q], k, s)
  {
    if k + |s| < p { assert buf[..p][k..k + |s|] == buf[k..k + |s|] == buf[..q][k..k + |s|]; }
    if k + |s| < q { assert buf[k..k + |s|] == buf[..q][k..k + |s|]; }
  }

  lemma DenotesKept(buf: Str, p: nat, q: nat, raw: seq<RawTag>, tags: seq<Tag>)
    requires p <= q <= |buf| && Denotes(buf[..p], raw, tags)
    ensures Denotes(buf[..q], raw, tags)
  {
    hide IsCStr;
    forall i | 0 <= i < |raw| ensures IsCStr(buf[..q], raw[i].name, tags[i].name) {
      CStrKept(buf, p, q, raw[i].name, tags[i].name);
    }
  }

  lemma PrependTwice(a: seq<Tag>, b: seq<Tag>, rest: Option<seq<Tag>>)
    ensures Prepend(a, Prepend(b, rest)) == Prepend(a + b, rest)
  {
    if rest.Some? { assert a + (b + rest.value) == a + b + rest.value; }
  }

  lemma PrependNothing(rest: Option<seq<Tag>>)
    ensures Prepend([], rest) == rest
  {
    if rest.Some? { assert [] + rest.value == rest.value; }
  }

  lemma NoLines(tags: seq<Tag>)
    ensures Prepend(tags, ParseLines([])) == Some(tags)
  {
    assert tags + [] == tags;
  }

  /** The tag of one line, if its ref is a tag. */
  method TagAt(pack: array<Byte>, line: RawLine, ghost l: Line) returns (raw: seq<RawTag>)
    requires IsCStr(pack[..], line.ref, l.ref) && line.id == l.id && line.ref + |l.ref| < line.next <= pack.Length
    ensures Denotes(pack[..line.next], raw, TagOf(l.ref, l.id))
  {
    hide IsCStr;
    var name := StripTagAt(pack, line.ref, l.ref);
    if name.None? { return []; }
    raw := [RawTag(name.value, line.id)];
    CStrKept(pack[..], 0, line.next, name.value, StripTag(l.ref).value);
  }

  /** ParsePack. The in-place edits leave every name found so far intact. */
  method ParsePack(pack: array<Byte>) returns (ok: bool, raw: seq<RawTag>)
    requires pack.Length > 0 && pack[pack.Length - 1] == NUL
    modifies pack
    ensures match ParseText(old(pack[..pack.Length - 1]))
            case None => !ok
            case Some(tags) => ok && Denotes(pack[..], raw, tags)
  {
    hide StrChr, ParseLine, ParseLines, TagOf, IsCStr;
    var n := pack.Length - 1;
    ghost var text := pack[..n];
    ok, raw := true, [];
    if pack[0] != HASH { return; }
    var eol := FindEol(pack, n, 0);
    assert pack[0..n] == text;
    if eol.None? { return; }
    pack[eol.value] := NUL;
    var p := eol.value + 1;
    ghost var tags: seq<Tag> := [];
    PrependNothing(ParseLines(text[p..]));
    while p != n
      invariant 0 < p <= n < pack.Length && pack[n] == NUL
      invariant pack[p..n] == text[p..]
      invariant ParseText(text) == Prepend(tags, ParseLines(text[p..]))
      invariant Denotes(pack[..p], raw, tags)
      decreases n - p
    {
      NextLine(text, p);
      ghost var was := pack[..];
      var line := ParseLineAt(pack, n, p);
      if line.None? { return false, []; }
      ghost var l := ParseLine(text[p..]).value;
      var next := line.value.next;
      LaterBytes(was, pack[..], next, next, n);
      assert was[next..n] == was[p..n][next - p..] && text[p..][next - p..] == text[next..];
      var more := TagAt(pack, line.value, l);
      DenotesKept(pack[..], p, next, raw, tags);
      PrependTwice(tags, TagOf(l.ref, l.id), ParseLines(text[next..]));
      raw := raw + more;
      tags := tags + TagOf(l.ref, l.id);
      p := next;
    }
    assert text[p..] == [];
    NoLines(tags);
    assert pack[..pack.Length] == pack[..];
    DenotesKept(pack[..], p, pack.Length, raw, tags);
  }

  lemma NextLine(text: Str, p: nat)
    requires p < |text|
    ensures ParseLines(text[p..]) ==
            match ParseLine(text[p..])
            case None => None
            case Some(l) => Prepend(TagOf(l.ref, l.id), ParseLines(text[p + l.used..]))
  {
    hide ParseLine, TagOf;
    if ParseLine(text[p..]).Some? {
      var l := ParseLine(text[p..]).value;
      assert text[p..][l.used..] == text[p + l.used..];
    }
  }
}
