/** Sending a request: the partial-write loop, and the request half of `http_post`. */
module Client {
  import opened CLib
  import opened Message
  import Url

  const BUFFER_SIZE := 4096

  /** One answer of the kernel to a write: an error, or room for up to n bytes. */
  datatype Reply = Fails | Takes(n: nat)

  /** The answers to all writes to come, without end. */
  type Replies = nat -> Reply

  ghost function From(replies: Replies, k: nat): Replies {
    (i: nat) => replies(k + i)
  }

  /** A connected socket and how many of its answers are used up. */
  class Socket {
    const replies: Replies
    var used: nat
    var delivered: string

    constructor (replies: Replies)
      ensures this.replies == replies && used == 0 && delivered == ""
    {
      this.replies, used, delivered := replies, 0, "";
    }

    /** write(2): -1, or the number of bytes taken, at most size. */
    method Write(buff: array<char>, from: nat, size: nat) returns (n: int)
      requires from + size <= buff.Length
      modifies this
      ensures used == old(used) + 1
      ensures n == match replies(old(used))
                   case Fails => -1
                   case Takes(k) => if k <= size then k else size
      ensures delivered == old(delivered) + if n == -1 then [] else buff[from..from + n]
    {
      match replies(used) {
        case Fails =>
          n := -1;
        case Takes(k) =>
          n := if k <= size then k else size;
          delivered := delivered + buff[from..from + n];
      }
      used := used + 1;
    }
  }

  // ---- the send loop, write by write ----

  /** Where a call of `http_tcpclient_send` stands: still in the loop, or returned; in either
    * case with `sent` bytes taken by the socket. */
  datatype Loop = Running(sent: nat) | Returned(rc: int, sent: nat)

  /** The state of the call after n writes. */
  ghost function LoopAfter(replies: Replies, size: int, n: nat): (l: Loop)
    ensures l.Running? ==> l.sent < size
    ensures l.sent <= if size > 0 then size else 0
  {
    if n == 0 then
      if size <= 0 then Returned(0, 0) else Running(0)
    else
      match LoopAfter(replies, size, n - 1)
      case Returned(rc, sent) => Returned(rc, sent)
      case Running(sent) =>
        match replies(n - 1)
        case Fails => Returned(-1, sent)
        case Takes(k) => if sent + k >= size then Returned(size, size) else Running(sent + k)
  }

  /** The bytes the socket had room for in its first n answers. */
  ghost function Taken(replies: Replies, n: nat): nat {
    if n == 0 then 0 else Taken(replies, n - 1) + if replies(n - 1).Takes? then replies(n - 1).n else 0
  }

  ghost predicate NoFailure(replies: Replies, n: nat) {
    forall i: nat | i < n :: replies(i).Takes?
  }

  /** The first n answers are no failures, and have room for the whole buffer. */
  ghost predicate Suffices(replies: Replies, size: int, n: nat) {
    NoFailure(replies, n) && Taken(replies, n) >= size
  }

  /** The first failure comes after n answers, before there was room for the whole buffer. */
  ghost predicate FailsShort(replies: Replies, size: int, n: nat) {
    NoFailure(replies, n) && Taken(replies, n) < size && replies(n).Fails?
  }

  lemma {:induction false} TakenGrows(replies: Replies, m: nat, n: nat)
    requires m <= n
    ensures Taken(replies, m) <= Taken(replies, n)
  {
    if m == n {
    } else {
      TakenGrows(replies, m, n - 1);
    }
  }

  /** A write that fails short leaves no number of answers that suffice, and conversely. */
  lemma NotBoth(replies: Replies, size: int, m: nat, n: nat)
    ensures !(FailsShort(replies, size, m) && Suffices(replies, size, n))
  {
    if n <= m {
      TakenGrows(replies, n, m);
    }
  }

  lemma {:induction false} RunningIff(replies: Replies, size: int, n: nat)
    requires size > 0
    ensures LoopAfter(replies, size, n).Running? <==> NoFailure(replies, n) && Taken(replies, n) < size
    ensures LoopAfter(replies, size, n).Running? ==> LoopAfter(replies, size, n).sent == Taken(replies, n)
  {
    if n == 0 {
      assert Taken(replies, 0) == 0;
    } else {
      RunningIff(replies, size, n - 1);
    }
  }

  /** A call that has returned did so at some write m: by filling the size, or by a failure. */
  lemma {:induction false} SettledAt(replies: Replies, size: int, n: nat) returns (m: nat)
    requires size > 0 && LoopAfter(replies, size, n).Returned?
    ensures m < n
    ensures var l := LoopAfter(replies, size, n);
            || (l == Returned(size, size) && Suffices(replies, size, m + 1))
            || (l == Returned(-1, Taken(replies, m)) && FailsShort(replies, size, m))
  {
    if LoopAfter(replies, size, n - 1).Returned? {
      m := SettledAt(replies, size, n - 1);
    } else {
      RunningIff(replies, size, n - 1);
      m := n - 1;
    }
  }

  /** What the call did is determined by sums: it runs until they reach the size or a write
    * fails; it returns the size exactly when some first answers suffice, and -1 exactly when
    * a failure came first, having then delivered the sum up to it. */
  lemma LoopIs(replies: Replies, size: int, n: nat)
    requires size > 0
    ensures LoopAfter(replies, size, n).Running? <==> NoFailure(replies, n) && Taken(replies, n) < size
    ensures LoopAfter(replies, size, n).Running? ==> LoopAfter(replies, size, n).sent == Taken(replies, n)
    ensures LoopAfter(replies, size, n) == Returned(size, size)
            <==> exists m: nat | m <= n :: Suffices(replies, size, m)
    ensures forall sent: nat ::
              (LoopAfter(replies, size, n) == Returned(-1, sent)
               <==> exists m: nat | m < n :: FailsShort(replies, size, m) && Taken(replies, m) == sent)
  {
    RunningIff(replies, size, n);
    forall m: nat | m <= n && Suffices(replies, size, m)
      ensures LoopAfter(replies, size, n) == Returned(size, size)
    {
      TakenGrows(replies, m, n);
      var k := SettledAt(replies, size, n);
      NotBoth(replies, size, k, m);
    }
    forall m: nat | m < n && FailsShort(replies, size, m)
      ensures LoopAfter(replies, size, n) == Returned(-1, Taken(replies, m))
    {
      var k := SettledAt(replies, size, n);
      NotBoth(replies, size, m, k + 1);
      FirstFailure(replies, size, m, k);
    }
    if LoopAfter(replies, size, n).Returned? {
      var k := SettledAt(replies, size, n);
      assert Suffices(replies, size, k + 1) || FailsShort(replies, size, k);
    }
  }

  lemma FirstFailure(replies: Replies, size: int, m: nat, k: nat)
    requires FailsShort(replies, size, m) && FailsShort(replies, size, k)
    ensures m == k
  {
  }

  /** After n answers a write fails, or there was room for the whole buffer. */
  ghost predicate Stops(replies: Replies, size: int, n: nat) {
    replies(n).Fails? || Taken(replies, n) >= size
  }

  ghost predicate EndedBy(replies: Replies, size: int, n: nat) {
    LoopAfter(replies, size, n).Returned?
  }

  /** The loop ends exactly when some write fails or the socket has room for the whole buffer. */
  lemma EndsIff(replies: Replies, size: int)
    ensures (exists n: nat :: EndedBy(replies, size, n)) <==> exists n: nat :: Stops(replies, size, n)
  {
    if size <= 0 {
      assert EndedBy(replies, size, 0) && Stops(replies, size, 0);
    } else {
      forall n: nat | EndedBy(replies, size, n)
        ensures exists m: nat :: Stops(replies, size, m)
      {
        var m := SettledAt(replies, size, n);
        assert Stops(replies, size, m) || Stops(replies, size, m + 1);
      }
      forall n: nat | Stops(replies, size, n)
        ensures EndedBy(replies, size, n + 1)
      {
        RunningIff(replies, size, n + 1);
        TakenGrows(replies, n, n + 1);
      }
    }
  }

  /** Writes that take nothing keep the loop running forever, with nothing delivered. */
  lemma ZeroWritesNeverEnd(replies: Replies, size: int)
    requires size > 0 && forall i: nat :: replies(i) == Takes(0)
    ensures forall n :: LoopAfter(replies, size, n) == Running(0)
  {
    forall n
      ensures LoopAfter(replies, size, n) == Running(0)
    {
      NothingTaken(replies, n);
      RunningIff(replies, size, n);
    }
  }

  lemma {:induction false} NothingTaken(replies: Replies, n: nat)
    requires forall i: nat :: replies(i) == Takes(0)
    ensures Taken(replies, n) == 0
  {
    if n == 0 {
    } else {
      NothingTaken(replies, n - 1);
    }
  }

  /** When each of the first size writes makes progress, the loop has succeeded by then. */
  lemma ProgressSuffices(replies: Replies, size: nat)
    requires size > 0 && forall i: nat | i < size :: replies(i).Takes? && replies(i).n > 0
    ensures LoopAfter(replies, size, size) == Returned(size, size)
  {
    ProgressTakes(replies, size);
    assert Suffices(replies, size, size);
    LoopIs(replies, size, size);
  }

  lemma {:induction false} ProgressTakes(replies: Replies, n: nat)
    requires forall i: nat | i < n :: replies(i).Takes? && replies(i).n > 0
    ensures Taken(replies, n) >= n
  {
    if n == 0 {
    } else {
      ProgressTakes(replies, n - 1);
    }
  }

  lemma {:induction false} LoopStays(replies: Replies, size: int, m: nat, n: nat)
    requires m <= n && LoopAfter(replies, size, m).Returned?
    ensures LoopAfter(replies, size, n) == LoopAfter(replies, size, m)
  {
    if m == n {
    } else {
      LoopStays(replies, size, m, n - 1);
    }
  }

  /** A size that is not positive ends the call before any write. */
  lemma NothingToSend(replies: Replies, size: int, n: nat)
    requires size <= 0
    ensures LoopAfter(replies, size, n) == Returned(0, 0)
  {
    LoopStays(replies, size, 0, n);
  }

  /** Of the given number of writes a call makes those until it returns, and no more. */
  ghost predicate MadeWrites(replies: Replies, size: int, writes: nat, made: int) {
    && 0 <= made <= writes
    && (made < writes ==> LoopAfter(replies, size, made).Returned?)
    && (made > 0 ==> LoopAfter(replies, size, made - 1).Running?)
  }

  /** `http_tcpclient_send`, observed for a given number of writes; None says that the call is
    * still in its loop then. In every case exactly the first `sent` bytes of the buffer have
    * been delivered, in order, and no write was made after the one that ended the loop. */
  method Send(socket: Socket, buff: array<char>, size: int, writes: nat) returns (rc: Option<int>)
    requires size <= buff.Length
    modifies socket
    ensures var l := LoopAfter(From(socket.replies, old(socket.used)), size, writes);
            && rc == (if l.Running? then None else Some(l.rc))
            && socket.delivered == old(socket.delivered) + buff[..l.sent]
    ensures MadeWrites(From(socket.replies, old(socket.used)), size, writes, socket.used - old(socket.used))
  {
    ghost var replies := From(socket.replies, socket.used);
    var sent, n := 0, 0;
    while sent < size
      invariant n <= writes && socket.used == old(socket.used) + n
      invariant 0 <= sent <= buff.Length
      invariant n > 0 ==> LoopAfter(replies, size, n - 1).Running?
      invariant LoopAfter(replies, size, n) == if sent < size then Running(sent) else Returned(sent, sent)
      invariant socket.delivered == old(socket.delivered) + buff[..sent]
      decreases writes - n
    {
      if n == writes {
        return None;
      }
      var tmpres := socket.Write(buff, sent, size - sent);
      assert replies(n) == socket.replies(old(socket.used) + n);
      n := n + 1;
      if tmpres == -1 {
        LoopStays(replies, size, n, writes);
        return Some(-1);
      }
      assert buff[..sent] + buff[sent..sent + tmpres] == buff[..sent + tmpres];
      sent := sent + tmpres;
    }
    LoopStays(replies, size, n, writes);
    return Some(sent);
  }

  // ---- from a URL to the wire ----

  /** The path part as the client's zeroed buffer holds it. */
  ghost function PathText(u: Url.Parts): string {
    if u.path.Some? then u.path.value else ""
  }

  ghost function RequestFor(url: string, content: string): string
    requires Url.Split(url).Some?
  {
    var u := Url.Split(url).value;
    PostText(PathText(u), u.host, |content|, content)
  }

  /** The text handed to the socket: the request as far as the buffer holds it. */
  ghost function Outgoing(url: string, content: string): string
    requires Url.Split(url).Some?
  {
    Snprintf(4 * BUFFER_SIZE, RequestFor(url, content))
  }

  /** Host and path fit the client's buffers; longer ones would overrun them. */
  ghost predicate FitsBuffers(url: string) {
    Url.Split(url).Some? ==>
      var u := Url.Split(url).value;
      |Url.Authority(u)| < BUFFER_SIZE && (u.path.Some? && u.path.value != "" ==> |u.path.value| < BUFFER_SIZE)
  }

  /** `http_post` up to the point where it waits for the answer, on a connected socket, and
    * observed for a given number of writes; None says that it is still sending then. */
  method PostRequest(url: Option<string>, content: Option<string>, socket: Socket, writes: nat)
    returns (rc: Option<int>)
    requires url.Some? ==> '\0' !in url.value && FitsBuffers(url.value)
    requires content.Some? ==> '\0' !in content.value
    modifies socket
    ensures url.None? || content.None? || Url.Split(url.value).None? ==>
              rc == Some(-1) && socket.delivered == old(socket.delivered) && socket.used == old(socket.used)
    ensures url.Some? && content.Some? && Url.Split(url.value).Some? ==>
              var text := Outgoing(url.value, content.value);
              var l := LoopAfter(From(socket.replies, old(socket.used)), |text|, writes);
              && rc == (if l.Running? then None else if l.rc < 0 then Some(-1) else Some(0))
              && socket.delivered == old(socket.delivered) + text[..l.sent]
              && MadeWrites(From(socket.replies, old(socket.used)), |text|, writes, socket.used - old(socket.used))
  {
    if url.None? || content.None? {
      return Some(-1);
    }
    var lpbuf := ZeroedBuffer(4 * BUFFER_SIZE);
    var parsed := BuildRequest(url.value, content.value, lpbuf);
    if parsed != 0 {
      return Some(-1);
    }
    rc := Transmit(socket, lpbuf, writes);
  }

  /** Send the text in the buffer. */
  method Transmit(socket: Socket, lpbuf: array<char>, writes: nat) returns (rc: Option<int>)
    modifies socket
    ensures var text := CString(lpbuf[..]);
            var l := LoopAfter(From(socket.replies, old(socket.used)), |text|, writes);
            && rc == (if l.Running? then None else if l.rc < 0 then Some(-1) else Some(0))
            && socket.delivered == old(socket.delivered) + text[..l.sent]
            && MadeWrites(From(socket.replies, old(socket.used)), |text|, writes, socket.used - old(socket.used))
  {
    var text := CString(lpbuf[..]);
    ghost var l := LoopAfter(From(socket.replies, socket.used), |text|, writes);
    assert lpbuf[..l.sent] == text[..l.sent];
    rc := Send(socket, lpbuf, |text|, writes);
    if rc.Some? {
      rc := if rc.value < 0 then Some(-1) else Some(0);
    }
  }

  /** Parse the URL and fill the request buffer. */
  method BuildRequest(url: string, content: string, lpbuf: array<char>) returns (rc: int)
    requires '\0' !in url && FitsBuffers(url) && '\0' !in content && lpbuf.Length == 4 * BUFFER_SIZE
    modifies lpbuf
    ensures rc == 0 || rc == -1
    ensures rc == 0 <==> "http://" <= url || "https://" <= url
    ensures rc == 0 ==> CString(lpbuf[..]) == Outgoing(url, content)
  {
    var host := ZeroedBuffer(BUFFER_SIZE);
    var file := ZeroedBuffer(BUFFER_SIZE);
    var port := new Url.IntCell(0);
    if Url.Split(url).Some? {
      PartsOfUrl(url);
    }
    rc := Url.ParseUrl(Some(url), host, file, port);
    if rc == 0 {
      rc := PostHeadCreate(CString(file[..]), CString(host[..]), lpbuf, 4 * BUFFER_SIZE, content, |content|);
    }
  }

  method ZeroedBuffer(size: nat) returns (buffer: array<char>)
    requires size > 0
    ensures fresh(buffer) && buffer.Length == size && CString(buffer[..]) == ""
  {
    buffer := new char[size](_ => '\0');
  }

  lemma PartsOfUrl(url: string)
    requires Url.Split(url).Some?
    ensures var u := Url.Split(url).value;
            (forall c | c in u.host || (u.path.Some? && c in u.path.value) :: c in url)
  {
    Url.PrintOfSplit(url);
  }

  /** From URL to server: if the request fits the buffer, the server reads back the path, the
    * host, the content and its length exactly when neither path nor host brings a line end. */
  lemma ServerReadsBackIff(url: string, content: string)
    requires Url.Split(url).Some?
    requires |RequestFor(url, content)| < 16384
    ensures var u := Url.Split(url).value;
            var path := if u.path.Some? then u.path.value else "";
            ReadsAs(Outgoing(url, content), path, u.host, content) <==> OneLine(path) && OneLine(u.host)
  {
    var u := Url.Split(url).value;
    PostReadsBackIff(PathText(u), u.host, content);
  }

  /** The content alone arrives as the body, if the request fits,
    * exactly when neither path nor host smuggles in a blank line. */
  lemma ServerReceivesIff(url: string, content: string)
    requires Url.Split(url).Some?
    requires |RequestFor(url, content)| < 16384
    ensures var u := Url.Split(url).value;
            var path := if u.path.Some? then u.path.value else "";
            Body(Outgoing(url, content)) == Some(content)
            <==> !Contains(path, "\r\n\r\n") && !Contains(u.host + "\r\n", "\r\n\r\n")
  {
    var u := Url.Split(url).value;
    PostBodyIff(PathText(u), u.host, |content|, content);
  }

  /** The request, spelled out. */
  ghost function WireText(path: string, host: string, content: string): string {
    "POST /" + path + " HTTP/1.1\r\n" +
    "Host:" + host + "\r\n" +
    "Accept: */*\r\n" +
    "Pragma: no-cache\r\n" +
    "Connection: close\r\n" +
    "Content-type: application/x-www-form-urlencoded" + "\r\n" +
    "Content-length:" + Digits(|content|) + "\r\n\r\n" +
    content
  }

  lemma WireTextIs(path: string, host: string, content: string)
    ensures PostText(path, host, |content|, content) == WireText(path, host, content)
  {
    FormTypeIs();
  }

  /** What a spelled-out URL sends: path, host and content as they are, and at most 16383 bytes
    * of it all; scheme and port leave no trace. */
  lemma OutgoingOfText(scheme: string, host: string, port: Option<string>, path: Option<string>, content: string)
    requires scheme == "http://" || scheme == "https://"
    requires '/' !in host && ':' !in host && (port.Some? ==> '/' !in port.value)
    ensures var authority := host + if port.Some? then ":" + port.value else "";
            var url := scheme + authority + if path.Some? then "/" + path.value else "";
            var text := WireText(if path.Some? then path.value else "", host, content);
            && Url.Split(url).Some?
            && Outgoing(url, content) == (if |text| <= 16383 then text else text[..16383])
  {
    Url.SplitOfText(scheme, host, port, path);
    WireTextIs(if path.Some? then path.value else "", host, content);
  }

  /** Host with port, and path, have room for 4095 bytes each. */
  lemma FitsBuffersIff(scheme: string, host: string, port: Option<string>, path: Option<string>)
    requires scheme == "http://" || scheme == "https://"
    requires '/' !in host && ':' !in host && (port.Some? ==> '/' !in port.value)
    ensures var authority := host + if port.Some? then ":" + port.value else "";
            var url := scheme + authority + if path.Some? then "/" + path.value else "";
            FitsBuffers(url) <==> |authority| <= 4095 && (path.Some? ==> |path.value| <= 4095)
  {
    Url.SplitOfText(scheme, host, port, path);
  }
}
