/** The Rio buffered reader of segel.c over an arbitrary sequence of read() replies: short reads of any size,
    interruptions, errors and end of file. */
module Rio {

  type Byte = x: int | 0 <= x < 256
  const NEWLINE: Byte := 10
  const RIO_BUFSIZE: nat := 8192

  // ----- cutting a stream into lines

  /** Where a line that has reached position p ends: through the next newline, but no further than `limit`
      and the end of the stream. */
  function LineEnd(s: seq<Byte>, p: nat, limit: nat): (e: nat)
    requires p <= |s|
    ensures p <= e <= |s| && (p <= limit ==> e <= limit)
    decreases |s| - p
  {
    if p >= limit || p == |s| then p
    else if s[p] == NEWLINE then p + 1
    else LineEnd(s, p + 1, limit)
  }

  /** The stream cut after each newline or after maxlen - 1 bytes. */
  function Lines(s: seq<Byte>, maxlen: nat): seq<seq<Byte>>
    requires maxlen >= 2
    decreases |s|
  {
    if s == [] then []
    else
      var n := LineEnd(s, 0, maxlen - 1);
      [s[..n]] + Lines(s[n..], maxlen)
  }

  function Concat(ls: seq<seq<Byte>>): seq<Byte> {
    if ls == [] then [] else ls[0] + Concat(ls[1..])
  }

  /** A line holds a newline only at its end; it stops short of the limit only at a newline or at the end of
      the stream. */
  lemma {:induction false} LineShape(s: seq<Byte>, p: nat, limit: nat)
    requires p <= |s| && p <= limit
    ensures var e := LineEnd(s, p, limit);
            && (forall i | p <= i < e - 1 :: s[i] != NEWLINE)
            && ((e > p && s[e - 1] == NEWLINE) || e == limit || e == |s|)
    decreases |s| - p
  {
    if p < limit && p < |s| && s[p] != NEWLINE {
      LineShape(s, p + 1, limit);
    }
  }

  /** Nothing is lost or duplicated by the cut. */
  lemma {:induction false} LinesRejoin(s: seq<Byte>, maxlen: nat)
    requires maxlen >= 2
    ensures Concat(Lines(s, maxlen)) == s
    decreases |s|
  {
    if s != [] {
      var n := LineEnd(s, 0, maxlen - 1);
      LinesRejoin(s[n..], maxlen);
      assert s[..n] + s[n..] == s;
    }
  }

  lemma SplitFront(b: seq<Byte>, rest: seq<Byte>, k: nat)
    requires k <= |b|
    ensures (b + rest)[..k] == b[..k] && (b + rest)[k..] == b[k..] + rest
  {
  }

  /** k bytes of the next line have been read from s, none of them a newline. */
  ghost predicate Reading(s: seq<Byte>, limit: nat, line: seq<Byte>, rest: seq<Byte>, k: nat) {
    && |line| == k && line + rest == s
    && LineEnd(s, 0, limit) == LineEnd(s, k, limit)
    && (k > 0 ==> line[k - 1] != NEWLINE)
  }

  /** The line stored and the value returned by rio_readlineb at the head of stream s. The value is the number
      of bytes stored only when they end in a newline; otherwise it is one more. */
  ghost predicate LineResult(s: seq<Byte>, maxlen: nat, line: seq<Byte>, rc: int)
    requires maxlen >= 1
  {
    && line == s[..LineEnd(s, 0, maxlen - 1)]
    && (rc == 0 <==> maxlen >= 2 && s == [])
    && (rc != 0 ==> rc == |line| + if line != [] && line[|line| - 1] == NEWLINE then 0 else 1)
  }

  /** The value returned tells a caller who knows the bytes stored whether the line was cut short: it is their number
      if they end in a newline and one more if not, and 0 at the end of the stream. */
  lemma ReturnValue(s: seq<Byte>, maxlen: nat, line: seq<Byte>, rc: int)
    requires maxlen >= 2 && LineResult(s, maxlen, line, rc)
    ensures rc == 0 <==> s == []
    ensures rc == |line| && s != [] <==> exists i :: 0 <= i < |line| && line[i] == NEWLINE
    ensures s != [] && rc != |line| ==> rc == |line| + 1 && (|line| == maxlen - 1 || line == s)
  {
    LineShape(s, 0, maxlen - 1);
  }

  lemma ReadingStep(s: seq<Byte>, limit: nat, line: seq<Byte>, c: Byte, rest: seq<Byte>, k: nat)
    requires Reading(s, limit, line, [c] + rest, k) && k < limit
    ensures line + [c] + rest == s
    ensures c != NEWLINE ==> Reading(s, limit, line + [c], rest, k + 1)
    ensures c == NEWLINE ==> LineResult(s, limit + 1, line + [c], k + 1)
  {
    assert line + [c] + rest == line + ([c] + rest);
    assert s[k] == c;
    assert line + [c] == s[..k + 1];
  }

  lemma ReadingEnd(s: seq<Byte>, limit: nat, line: seq<Byte>, rest: seq<Byte>, k: nat)
    requires k <= limit && Reading(s, limit, line, rest, k) && (k == limit || rest == [])
    ensures k == 0 && limit >= 1 ==> LineResult(s, limit + 1, line, 0)
    ensures k > 0 || limit == 0 ==> LineResult(s, limit + 1, line, k + 1)
  {
    assert line == s[..k];
  }

  lemma NextLine(s: seq<Byte>, maxlen: nat, line: seq<Byte>, rest: seq<Byte>, rc: int)
    requires maxlen >= 2 && line + rest == s && LineResult(s, maxlen, line, rc) && rc != 0
    ensures Lines(s, maxlen) == [line] + Lines(rest, maxlen) && |rest| < |s|
  {
    assert rest == s[|line|..] && |line| == LineEnd(s, 0, maxlen - 1);
  }

  // ----- the descriptor behind read()

  /** One reply of read(): interrupted, failed, or at most n > 0 bytes. */
  datatype Reply = Interrupted | Failed | AtMost(n: nat)

  datatype ReadResult = Eintr | Error | Bytes(b: seq<Byte>)

  class Descriptor {
    var stream: seq<Byte>
    var replies: seq<Reply>

    constructor (stream: seq<Byte>, replies: seq<Reply>)
      ensures this.stream == stream && this.replies == replies
    {
      this.stream, this.replies := stream, replies;
    }

    /** read(fd, buf, cap). When the script of replies is used up, as many bytes as fit. */
    method Read(cap: nat) returns (r: ReadResult)
      requires cap > 0
      modifies this
      ensures replies == if old(replies) == [] then [] else old(replies)[1..]
      ensures r.Bytes? ==> r.b + stream == old(stream) && |r.b| <= cap && (r.b == [] <==> old(stream) == [])
      ensures !r.Bytes? ==> stream == old(stream) && old(replies) != []
      ensures r.Error? ==> Failed in old(replies)
    {
      var reply := if replies == [] then AtMost(cap) else replies[0];
      replies := if replies == [] then [] else replies[1..];
      match reply
      case Interrupted => r := Eintr;
      case Failed => r := Error;
      case AtMost(n) =>
        var k := if n == 0 then 1 else n;
        if k > cap { k := cap; }
        if k > |stream| { k := |stream|; }
        r := Bytes(stream[..k]);
        stream := stream[k..];
    }
  }

  /** rio_t. */
  class Reader {
    const fd: Descriptor
    var cnt: int
    var bufptr: nat
    const buf: array<Byte>

    /** What the caller has not been given yet: the unread buffer, then the rest of the stream. */
    ghost var pending: seq<Byte>

    ghost predicate Valid()
      reads this, buf, fd
    {
      && buf.Length == RIO_BUFSIZE
      && (cnt > 0 ==> bufptr + cnt <= buf.Length)
      && pending == (if cnt > 0 then buf[bufptr..bufptr + cnt] else []) + fd.stream
    }

    ghost predicate Quiet()
      reads fd
    {
      Failed !in fd.replies
    }

    /** rio_readinitb. */
    constructor (fd: Descriptor)
      ensures Valid() && this.fd == fd && fresh(buf)
      ensures pending == fd.stream
    {
      this.fd := fd;
      cnt, bufptr, pending := 0, 0, fd.stream;
      buf := new Byte[RIO_BUFSIZE](_ => 0);
    }

    /** The refill loop of rio_read: returns -1 on an error, 0 at end of file, 1 with bytes in the buffer. */
    method Refill() returns (status: int)
      requires Valid()
      modifies this`cnt, this`bufptr, this`pending, buf, fd
      ensures Valid() && pending == old(pending) && -1 <= status <= 1
      ensures old(Quiet()) ==> Quiet() && status >= 0
      ensures old(cnt) > 0 ==>
                status == 1 && cnt == old(cnt) && fd.stream == old(fd.stream) && fd.replies == old(fd.replies)
      ensures status <= 0 ==> cnt <= 0
      ensures status == 0 ==> pending == []
      ensures status == 1 ==> cnt > 0
    {
      while cnt <= 0
        invariant Valid() && pending == old(pending) && (old(Quiet()) ==> Quiet())
        invariant old(cnt) > 0 ==>
                    cnt == old(cnt) && fd.stream == old(fd.stream) && fd.replies == old(fd.replies)
        decreases |fd.replies|, if cnt <= 0 then 1 else 0
      {
        var r := fd.Read(buf.Length);
        match r
        case Eintr =>
          cnt := -1;
        case Error =>
          cnt := -1;
          return -1;
        case Bytes(b) =>
          if b == [] {
            cnt := 0;
            return 0;
          }
          Fill(b);
      }
      status := 1;
    }

    /** read() storing b at the start of the buffer. */
    method Fill(b: seq<Byte>)
      requires buf.Length == RIO_BUFSIZE && 0 < |b| <= buf.Length
      modifies this`cnt, this`bufptr, buf
      ensures cnt == |b| && bufptr == 0 && buf[..cnt] == b
    {
      var i := 0;
      while i < |b|
        invariant 0 <= i <= |b| && buf[..i] == b[..i]
      {
        buf[i] := b[i];
        i := i + 1;
      }
      cnt, bufptr := |b|, 0;
    }

    /** rio_read: up to n bytes, refilling an empty buffer first. */
    method Read(n: nat) returns (rc: int, out: seq<Byte>)
      requires Valid()
      modifies this`cnt, this`bufptr, this`pending, buf, fd
      ensures Valid() && out + pending == old(pending) && (old(Quiet()) ==> Quiet() && rc >= 0)
      ensures rc == -1 || rc == |out|
      ensures rc == -1 ==> out == []
      ensures rc == 0 && n > 0 ==> pending == []
      ensures |out| <= n && (rc > 0 && |out| < n ==> cnt == 0)
      ensures old(cnt) > 0 ==>
                && |out| == (if n < old(cnt) then n else old(cnt)) && cnt == old(cnt) - |out|
                && fd.stream == old(fd.stream) && fd.replies == old(fd.replies)
    {
      var status := Refill();
      if status <= 0 {
        return status, [];
      }
      var k := if cnt < n then cnt else n;
      out := Take(k);
      rc := k;
    }

    /** The memcpy of rio_read: hand out k buffered bytes. */
    method Take(k: nat) returns (out: seq<Byte>)
      requires Valid() && 0 < cnt && k <= cnt
      modifies this`cnt, this`bufptr, this`pending
      ensures Valid() && out + pending == old(pending) && |out| == k && cnt == old(cnt) - k
    {
      out := buf[bufptr..bufptr + k];
      ghost var b := buf[bufptr..bufptr + cnt];
      SplitFront(b, fd.stream, k);
      assert out == b[..k] && buf[bufptr + k..bufptr + cnt] == b[k..];
      assert b[k..] == [] <==> k == cnt;
      bufptr, cnt, pending := bufptr + k, cnt - k, pending[k..];
    }

    /** rio_readnb: the next n bytes, or what is left of the stream. */
    method ReadN(n: nat) returns (rc: int, out: seq<Byte>)
      requires Valid()
      modifies this`cnt, this`bufptr, this`pending, buf, fd
      ensures Valid() && out + pending == old(pending) && (old(Quiet()) ==> Quiet())
      ensures old(Quiet()) ==> rc == |out| && |out| == if n <= |old(pending)| then n else |old(pending)|
      ensures rc != |out| ==> rc == -1
    {
      out := [];
      var nleft := n;
      while nleft > 0
        invariant Valid() && out + pending == old(pending) && (old(Quiet()) ==> Quiet())
        invariant nleft + |out| == n && 0 <= nleft
        decreases nleft
      {
        var nread, b := Read(nleft);
        ghost var before := out;
        out := out + b;
        assert before + (b + pending) == out + pending;
        if nread < 0 {
          return -1, out;
        }
        if nread == 0 {
          break;
        }
        nleft := nleft - nread;
      }
      rc := n - nleft;
    }

    /** rio_readlineb: the bytes stored before the terminating NUL, and the return value. */
    method ReadLine(maxlen: nat) returns (rc: int, line: seq<Byte>)
      requires Valid() && maxlen >= 1
      modifies this`cnt, this`bufptr, this`pending, buf, fd
      ensures Valid() && (old(Quiet()) ==> Quiet() && rc >= 0)
      ensures line + pending == old(pending)
      ensures rc >= 0 ==> LineResult(old(pending), maxlen, line, rc)
    {
      line := [];
      ghost var s := pending;
      var n := 1;
      while n < maxlen
        invariant Valid() && (old(Quiet()) ==> Quiet())
        invariant 1 <= n <= maxlen && Reading(s, maxlen - 1, line, pending, n - 1)
      {
        var rc1, c := ReadByte();
        if rc1 == 1 {
          ReadingStep(s, maxlen - 1, line, c, pending, n - 1);
          line := line + [c];
          if c == NEWLINE {
            return n, line;
          }
        } else if rc1 == 0 {
          ReadingEnd(s, maxlen - 1, line, pending, n - 1);
          if n == 1 {
            return 0, line;
          }
          return n, line;
        } else {
          return -1, line;
        }
        n := n + 1;
      }
      ReadingEnd(s, maxlen - 1, line, pending, n - 1);
      rc := n;
    }

    /** rio_read(rp, &c, 1). */
    method ReadByte() returns (rc: int, c: Byte)
      requires Valid()
      modifies this`cnt, this`bufptr, this`pending, buf, fd
      ensures Valid() && -1 <= rc <= 1 && (old(Quiet()) ==> Quiet() && rc >= 0)
      ensures rc == 1 ==> old(pending) == [c] + pending
      ensures rc == 0 ==> old(pending) == [] && pending == []
      ensures rc == -1 ==> pending == old(pending)
    {
      var out;
      rc, out := Read(1);
      c := if rc == 1 then out[0] else 0;
      assert rc == 1 ==> out == [c];
      assert rc <= 0 ==> out + pending == pending;
    }

    /** A client that reads lines until end of file receives exactly the lines of the stream, however the
        replies cut it. */
    method ReadAllLines(maxlen: nat) returns (lines: seq<seq<Byte>>)
      requires Valid() && maxlen >= 2 && Quiet()
      modifies this`cnt, this`bufptr, this`pending, buf, fd
      ensures Valid() && pending == [] && lines == Lines(old(pending), maxlen)
    {
      lines := [];
      while true
        invariant Valid() && Quiet()
        invariant Lines(old(pending), maxlen) == lines + Lines(pending, maxlen)
        decreases |pending|
      {
        ghost var s := pending;
        var rc, line := ReadLine(maxlen);
        if rc == 0 {
          break;
        }
        NextLine(s, maxlen, line, pending, rc);
        assert lines + ([line] + Lines(pending, maxlen)) == lines + [line] + Lines(pending, maxlen);
        lines := lines + [line];
      }
    }
  }
}
