/**
 request.cc: cutting the byte stream into messages, and parsing a message.
 */
module Request {
  import opened Basics
  import opened ByteStrings

  const FIELD_SEP: Byte := 31
  const MSG_SEP: Byte := 30
  const COLON: Byte := 58
  const ZERO: Byte := 48
  const ONE: Byte := 49

  datatype Request = Request(id: Str, dir: Str, fromDotgit: bool, diff: bool)

  /** std::find: the index of the first v, or the length. */
  function Find(s: Str, v: Byte): (r: nat)
    ensures r <= |s| && v !in s[..r] && (r < |s| ==> s[r] == v)
  {
    if s == [] || s[0] == v then 0
    else
      var r := Find(s[1..], v);
      assert s[..r + 1] == [s[0]] + s[1..][..r];
      r + 1
  }

  /** ParseRequest; None is the failed VERIFY. */
  function ParseRequest(s: Str): (r: Option<Request>)
    ensures r.Some? ==> FIELD_SEP !in r.value.id && FIELD_SEP !in r.value.dir
    ensures r.Some? && !r.value.fromDotgit && r.value.dir != [] ==> r.value.dir[0] != COLON
  {
    var sep := Find(s, FIELD_SEP);
    if sep == |s| then None
    else
      var rest := s[sep + 1..];
      if rest != [] && rest[0] == COLON then ParseDir(s[..sep], true, rest[1..]) else ParseDir(s[..sep], false, rest)
  }

  /** The directory and the optional last field. */
  function ParseDir(id: Str, fromDotgit: bool, path: Str): (r: Option<Request>)
    ensures r.Some? ==>
              && r.value.id == id && r.value.fromDotgit == fromDotgit && FIELD_SEP !in r.value.dir
              && (r.value.dir != [] ==> path != [] && r.value.dir[0] == path[0])
  {
    var end := Find(path, FIELD_SEP);
    if end == |path| then
      assert path[..end] == path;
      Some(Request(id, path, fromDotgit, true))
    else
      var flag := path[end + 1..];
      if |flag| == 1 && (flag[0] == ZERO || flag[0] == ONE)
      then Some(Request(id, path[..end], fromDotgit, flag[0] == ZERO)) else None
  }

  /** The part of the layout after the colon. */
  function RenderDir(r: Request, explicit: bool): Str {
    r.dir + (if !r.diff then [31, 49] else if explicit then [31, 48] else [])
  }

  /** The documented layout. The last field may be left out when the diff is wanted. */
  function Render(r: Request, explicit: bool): Str {
    r.id + [31] + ((if r.fromDotgit then [58] else []) + RenderDir(r, explicit))
  }

  predicate Representable(r: Request) {
    31 !in r.id && 31 !in r.dir && (r.fromDotgit || r.dir == [] || r.dir[0] != 58)
  }

  lemma {:induction false} FindIn(a: Str, v: Byte, b: Str)
    requires v !in a
    ensures Find(a + [v] + b, v) == |a| && Find(a, v) == |a|
  {
    if a != [] {
      assert (a + [v] + b)[1..] == a[1..] + [v] + b;
      assert a[0] in a && forall x :: x in a[1..] ==> x in a;
      FindIn(a[1..], v, b);
    } else {
      assert a + [v] + b == [v] + b;
    }
  }

  /** Parsing undoes rendering exactly for the requests that the layout can express. */
  lemma ParseUndoesRender(r: Request, explicit: bool)
    ensures ParseRequest(Render(r, explicit)) == Some(r) <==> Representable(r)
  {
    if Representable(r) {
      RenderParses(r, explicit);
    }
  }

  lemma RenderDirParses(r: Request, explicit: bool)
    requires FIELD_SEP !in r.dir
    ensures ParseDir(r.id, r.fromDotgit, RenderDir(r, explicit)) == Some(r)
  {
    hide Find;
    var path := RenderDir(r, explicit);
    if !r.diff || explicit {
      var flag: Str := if !r.diff then [ONE] else [ZERO];
      assert path == r.dir + [FIELD_SEP] + flag;
      FindIn(r.dir, FIELD_SEP, flag);
      assert path[..|r.dir|] == r.dir && path[|r.dir| + 1..] == flag;
    } else {
      assert path == r.dir;
      FindIn(r.dir, FIELD_SEP, []);
    }
  }

  /** The first field and the colon come off again. */
  lemma RenderSplits(id: Str, fromDotgit: bool, path: Str)
    requires FIELD_SEP !in id && (fromDotgit || path == [] || path[0] != COLON)
    ensures ParseRequest(id + [FIELD_SEP] + ((if fromDotgit then [COLON] else []) + path)) == ParseDir(id, fromDotgit, path)
  {
    hide Find, ParseDir;
    var rest := (if fromDotgit then [COLON] else []) + path;
    var s := id + [FIELD_SEP] + rest;
    FindIn(id, FIELD_SEP, rest);
    assert s[..|id|] == id && s[|id| + 1..] == rest;
    if fromDotgit { assert rest[1..] == path; } else { assert rest == path; }
  }

  lemma RenderParses(r: Request, explicit: bool)
    requires Representable(r)
    ensures ParseRequest(Render(r, explicit)) == Some(r)
  {
    hide Find, ParseDir, ParseRequest;
    RenderDirParses(r, explicit);
    RenderSplits(r.id, r.fromDotgit, RenderDir(r, explicit));
  }

  /** The first two unit separators stand at i and j. */
  ghost predicate Fields(s: Str, i: nat, j: nat) {
    i < j < |s| && s[i] == 31 == s[j] && 31 !in s[..i] && 31 !in s[i + 1..j]
  }

  /** The third field is neither "0" nor "1". */
  ghost predicate BadFlag(s: Str, i: nat, j: nat) {
    Fields(s, i, j) && s[j + 1..] != [48] && s[j + 1..] != [49]
  }

  lemma FieldsAreFirst(s: Str, i: nat, j: nat)
    requires Fields(s, i, j)
    ensures Find(s, 31) == i && Find(s[i + 1..], 31) == j - i - 1
  {
    var path := s[i + 1..];
    assert s == s[..i] + [31] + path;
    FindIn(s[..i], 31, path);
    assert path[..j - i - 1] == s[i + 1..j];
    assert path == s[i + 1..j] + [31] + s[j + 1..];
    FindIn(s[i + 1..j], 31, s[j + 1..]);
  }

  lemma DirRefused(id: Str, fromDotgit: bool, path: Str)
    ensures ParseDir(id, fromDotgit, path) == None <==>
            var e := Find(path, 31); e < |path| && path[e + 1..] != [48] && path[e + 1..] != [49]
  {
    hide Find;
  }

  lemma ColonSkipped(path: Str)
    requires path != [] && path[0] == 58
    ensures var e := Find(path, 31);
            Find(path[1..], 31) == e - 1 && (e < |path| ==> path[1..][e..] == path[e + 1..])
  {
  }

  lemma RefusedAfter(s: Str)
    requires Find(s, 31) < |s|
    ensures var path := s[Find(s, 31) + 1..];
            var e := Find(path, 31);
            ParseRequest(s) == None <==> e < |path| && path[e + 1..] != [48] && path[e + 1..] != [49]
  {
    hide Find, ParseDir;
    var i := Find(s, 31);
    var path := s[i + 1..];
    if path != [] && path[0] == COLON {
      ColonSkipped(path);
      DirRefused(s[..i], true, path[1..]);
    } else {
      DirRefused(s[..i], false, path);
    }
  }

  /** A request is refused iff it has no second field, or has a third one that is not exactly "0" or "1". */
  lemma RequestRefused(s: Str)
    ensures ParseRequest(s) == None <==> 31 !in s || exists i: nat, j: nat :: BadFlag(s, i, j)
  {
    hide Find, ParseDir;
    var i := Find(s, 31);
    if i == |s| {
      assert s[..i] == s;
    } else {
      hide ParseRequest;
      RefusedAfter(s);
      assert s[i] in s;
      var path := s[i + 1..];
      var e := Find(path, 31);
      if e < |path| {
        assert s[i + 1..i + 1 + e] == path[..e] && path[e + 1..] == s[i + 1 + e + 1..];
        var j: nat := i + 1 + e;
        assert BadFlag(s, i, j) <==> path[e + 1..] != [48] && path[e + 1..] != [49];
      }
      if i': nat, j': nat :| BadFlag(s, i', j') {
        FieldsAreFirst(s, i', j');
        assert path[e + 1..] == s[j' + 1..];
      }
    }
  }

  /* ---- framing ---- */

  /** The complete messages of a stream. */
  function Frames(s: Str): seq<Str>
    decreases |s|
  {
    var i := Find(s, MSG_SEP);
    if i == |s| then [] else [s[..i]] + Frames(s[i + 1..])
  }

  /** What follows the last separator. */
  function Tail(s: Str): Str
    decreases |s|
  {
    var i := Find(s, MSG_SEP);
    if i == |s| then s else Tail(s[i + 1..])
  }

  /** Input that arrives at select: bytes, or a second without any. */
  datatype Event = Chunk(bytes: Str) | Timeout

  function Bytes(events: seq<Event>): Str {
    if events == [] then []
    else (match events[0] case Chunk(b) => b case Timeout => []) + Bytes(events[1..])
  }

  lemma {:induction false} BytesOfConcat(a: seq<Event>, b: seq<Event>)
    ensures Bytes(a + b) == Bytes(a) + Bytes(b)
  {
    if a == [] {
      assert a + b == b;
    } else {
      assert (a + b)[1..] == a[1..] + b;
      BytesOfConcat(a[1..], b);
    }
  }

  lemma NoBytes()
    ensures Bytes([]) == []
  {
  }

  lemma NextBytes(events: seq<Event>, i: nat, next: nat)
    requires i <= next < |events|
    ensures Bytes(events[i..next + 1]) ==
            Bytes(events[i..next]) + match events[next] case Chunk(b) => b case Timeout => []
  {
    assert events[i..next + 1] == events[i..next] + [events[next]];
    BytesOfConcat(events[i..next], [events[next]]);
    assert Bytes([events[next]][1..]) == [];
  }

  /** A message ends at the first record separator. */
  lemma FirstFrame(m: Str, rest: Str)
    requires 30 !in m
    ensures Frames(m + [30] + rest) == [m] + Frames(rest) && Tail(m + [30] + rest) == Tail(rest)
  {
    var s := m + [MSG_SEP] + rest;
    FindIn(m, MSG_SEP, rest);
    assert s[..|m|] == m && s[|m| + 1..] == rest;
  }

  lemma NoFrame(s: Str)
    requires 30 !in s
    ensures Frames(s) == [] && Tail(s) == s
  {
    FindIn(s, MSG_SEP, []);
  }

  /** A buffer without a separator followed by a chunk with one ends a message at that separator. */
  lemma CutInChunk(before: Str, buf: Str, sep: nat)
    requires MSG_SEP !in before && sep < |buf| && MSG_SEP !in buf[..sep] && buf[sep] == MSG_SEP
    ensures var m := (before + buf)[..|before| + sep];
            MSG_SEP !in m && before + buf == m + [MSG_SEP] + (before + buf)[|m| + 1..]
  {
    var read := before + buf;
    assert read[..|before| + sep] == before + buf[..sep];
    assert read[|before| + sep] == MSG_SEP;
  }

  lemma CutInBuffer(read: Str, eol: nat)
    requires eol < |read| && read[eol] == MSG_SEP
    ensures read == read[..eol] + [MSG_SEP] + read[eol + 1..]
  {
  }

  /** The bytes of a stream read up to event `next`, followed by the rest. */
  lemma SplitStream(was: Str, events: seq<Event>, i: nat, next: nat, front: Str, read: Str)
    requires i <= next <= |events| && was + Bytes(events[i..next]) == front + read
    ensures was + Bytes(events[i..]) == front + (read + Bytes(events[next..]))
  {
    hide Bytes;
    var x, later := Bytes(events[i..next]), Bytes(events[next..]);
    assert events[i..] == events[i..next] + events[next..];
    BytesOfConcat(events[i..next], events[next..]);
    assert was + (x + later) == (was + x) + later;
    assert front + (read + later) == (front + read) + later;
  }

  class RequestReader {
    /** Bytes read but not yet returned. */
    var read: Str

    constructor ()
      ensures read == []
    {
      read := [];
    }

    /** One chunk that was read: append it, and cut a message off if it ends in the chunk. */
    method ReadChunk(buf: Str) returns (msg: Option<Str>)
      requires MSG_SEP !in read
      modifies this
      ensures match msg
              case None => read == old(read) + buf && MSG_SEP !in read
              case Some(m) => old(read) + buf == m + [MSG_SEP] + read && MSG_SEP !in m
    {
      hide Find;
      ghost var before := read;
      read := read + buf;
      var sep := Find(buf, MSG_SEP);
      if sep != |buf| {
        CutInChunk(before, buf, sep);
        var m := read[..|read| - (|buf| - sep)];
        read := read[|m| + 1..];
        return Some(m);
      }
      assert buf[..sep] == buf;
      msg := None;
    }

    /** RequestReader::ReadRequest, from event i on. None is a timeout, or input that is still to come. */
    method ReadRequest(events: seq<Event>, i: nat) returns (msg: Option<Str>, next: nat)
      requires i <= |events|
      modifies this
      ensures i <= next <= |events|
      ensures msg.Some? ==>
                MSG_SEP !in msg.value && old(read) + Bytes(events[i..next]) == msg.value + [MSG_SEP] + read
      ensures msg.None? ==>
                && MSG_SEP !in read && old(read) + Bytes(events[i..next]) == read
                && (next == |events| || (i < next && events[next - 1].Timeout?))
      ensures MSG_SEP in old(read) ==> next == i
      ensures MSG_SEP !in old(read) && msg.Some? ==> i < next && MSG_SEP !in old(read) + Bytes(events[i..next - 1])
      ensures forall j :: i <= j < next - 1 ==> events[j].Chunk?
    {
      hide Find, Bytes;
      NoBytes();
      next := i;
      assert events[i..i] == [];
      var eol := Find(read, MSG_SEP);
      if eol != |read| {
        msg := Some(read[..eol]);
        CutInBuffer(read, eol);
        read := read[eol + 1..];
        return;
      }
      assert read[..eol] == read;
      while next < |events|
        invariant i <= next <= |events|
        invariant MSG_SEP !in read && read == old(read) + Bytes(events[i..next])
        invariant forall j :: i <= j < next ==> events[j].Chunk?
      {
        NextBytes(events, i, next);
        if events[next].Timeout? {
          next := next + 1;
          return None, next;
        }
        msg := ReadChunk(events[next].bytes);
        next := next + 1;
        if msg.Some? { return; }
      }
      msg := None;
    }

    /**
     Calling ReadRequest until the input is used up. The messages depend on the bytes only, not on how they were cut
     into chunks or where timeouts fell.
     */
    method ReadAll(events: seq<Event>) returns (msgs: seq<Str>)
      modifies this
      ensures msgs == Frames(old(read) + Bytes(events)) && read == Tail(old(read) + Bytes(events))
    {
      hide Find, Bytes, Frames, Tail;
      NoBytes();
      msgs := [];
      var i := 0;
      ghost var all := read + Bytes(events);
      assert events[0..] == events;
      while true
        invariant 0 <= i <= |events|
        invariant Frames(all) == msgs + Frames(read + Bytes(events[i..]))
        invariant Tail(all) == Tail(read + Bytes(events[i..]))
        decreases |events| - i, |read|
      {
        ghost var was := read;
        var msg, next := ReadRequest(events, i);
        ghost var later := Bytes(events[next..]);
        if msg.Some? {
          SplitStream(was, events, i, next, msg.value + [MSG_SEP], read);
          FirstFrame(msg.value, read + later);
          assert msgs + ([msg.value] + Frames(read + later)) == (msgs + [msg.value]) + Frames(read + later);
          msgs := msgs + [msg.value];
          assert next == i ==> events[i..next] == [];
        } else {
          SplitStream(was, events, i, next, [], read);
          assert [] + (read + later) == read + later;
          if next == |events| {
            assert events[next..] == [];
            assert read + later == read;
            NoFrame(read);
            return;
          }
        }
        i := next;
      }
    }
  }
}
