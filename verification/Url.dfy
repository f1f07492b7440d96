/** URL splitting into caller-supplied buffers. */
module Url {
  import opened CLib

  const DEFAULT_PORT := 80

  // ---- cutting a string at a character ----

  /** The text before the first c, and the text after it if there is one. */
  function Cut(s: string, c: char): (string, Option<string>) {
    var i := IndexOf(s, c);
    (s[..i], if i < |s| then Some(s[i + 1..]) else None)
  }

  function Paste(left: string, c: char, right: Option<string>): string {
    if right.Some? then left + [c] + right.value else left
  }

  lemma PasteOfCut(s: string, c: char)
    ensures Paste(Cut(s, c).0, c, Cut(s, c).1) == s && c !in Cut(s, c).0
    ensures forall d | d !in s :: d !in Cut(s, c).0 && (Cut(s, c).1.Some? ==> d !in Cut(s, c).1.value)
  {
    var i := IndexOf(s, c);
    assert i < |s| ==> s == s[..i] + [s[i]] + s[i + 1..];
    assert i == |s| ==> s == s[..i];
  }

  lemma CutOfPaste(left: string, c: char, right: Option<string>)
    requires c !in left
    ensures Cut(Paste(left, c, right), c) == (left, right)
  {
    var s := Paste(left, c, right);
    assert s[..|left|] == left;
    IndexOfIs(s, c, |left|);
    assert right.Some? ==> s[|left| + 1..] == right.value;
  }

  // ---- splitting and printing ----

  datatype Parts = Parts(secure: bool, host: string, port: Option<string>, path: Option<string>)

  ghost predicate WellFormed(u: Parts) {
    && '/' !in u.host && ':' !in u.host
    && (u.port.Some? ==> '/' !in u.port.value)
  }

  function Scheme(secure: bool): string {
    if secure then "https://" else "http://"
  }

  function Authority(u: Parts): string {
    Paste(u.host, ':', u.port)
  }

  function Print(u: Parts): string {
    Scheme(u.secure) + Paste(Authority(u), '/', u.path)
  }

  /** The parts of a URL, or None when neither scheme prefixes it. */
  function Split(s: string): (r: Option<Parts>)
    ensures r.Some? <==> "http://" <= s || "https://" <= s
  {
    if Scheme(false) <= s then Some(SplitRest(false, s[|Scheme(false)|..]))
    else if Scheme(true) <= s then Some(SplitRest(true, s[|Scheme(true)|..]))
    else None
  }

  function SplitRest(secure: bool, rest: string): Parts {
    var (auth, path) := Cut(rest, '/');
    var (host, port) := Cut(auth, ':');
    Parts(secure, host, port, path)
  }

  /** The port a split URL names: what atoi makes of the text, or 80 for either scheme. */
  function PortOf(u: Parts): int {
    if u.port.Some? then Atoi(u.port.value) else DEFAULT_PORT
  }

  /** Printing what was split gives the URL back. */
  lemma PrintOfSplit(s: string)
    requires Split(s).Some?
    ensures WellFormed(Split(s).value) && Print(Split(s).value) == s
  {
    var u := Split(s).value;
    var rest := s[|Scheme(u.secure)|..];
    PrintOfSplitRest(u.secure, rest);
    assert s == Scheme(u.secure) + rest;
  }

  lemma PrintOfSplitRest(secure: bool, rest: string)
    ensures var u := SplitRest(secure, rest);
            WellFormed(u) && Authority(u) == Cut(rest, '/').0 && Paste(Authority(u), '/', u.path) == rest
  {
    PasteOfCut(rest, '/');
    PasteOfCut(Cut(rest, '/').0, ':');
    assert '/' !in Cut(rest, '/').0;
  }

  /** Splitting what was printed gives the parts back, so the two are inverse. */
  lemma SplitOfPrint(u: Parts)
    requires WellFormed(u)
    ensures Split(Print(u)) == Some(u)
  {
    var rest := Paste(Authority(u), '/', u.path);
    var s := Print(u);
    assert Scheme(true)[4] == 's' && Scheme(false)[4] == ':';
    assert s[4] == Scheme(u.secure)[4];
    assert s[|Scheme(u.secure)|..] == rest;
    CutOfPaste(Authority(u), '/', u.path);
    CutOfPaste(u.host, ':', u.port);
  }

  /** A URL spelled out: the scheme, a host without '/' and ':', a port if a ':' follows, and a
    * path if a '/' follows. Without a port it is 80, for https as well. */
  lemma SplitOfText(scheme: string, host: string, port: Option<string>, path: Option<string>)
    requires scheme == "http://" || scheme == "https://"
    requires '/' !in host && ':' !in host && (port.Some? ==> '/' !in port.value)
    ensures var u := Parts(scheme == "https://", host, port, path);
            var authority := host + if port.Some? then ":" + port.value else "";
            && Split(scheme + authority + if path.Some? then "/" + path.value else "") == Some(u)
            && Authority(u) == authority
            && PortOf(u) == if port.Some? then Atoi(port.value) else 80
  {
    var u := Parts(scheme == "https://", host, port, path);
    SplitOfPrint(u);
    PrintIs(u);
  }

  lemma PrintIs(u: Parts)
    ensures var authority := u.host + if u.port.Some? then ":" + u.port.value else "";
            && Authority(u) == authority
            && Print(u) == (if u.secure then "https://" else "http://") + authority
                           + if u.path.Some? then "/" + u.path.value else ""
  {
    var authority := u.host + if u.port.Some? then ":" + u.port.value else "";
    assert Authority(u) == authority;
    if u.path.Some? {
      assert authority + ['/'] + u.path.value == authority + ("/" + u.path.value);
    }
  }

  /** A numeric port is read back as the number. */
  lemma NumericPort(u: Parts, n: nat)
    requires u.port == Some(Digits(n))
    ensures PortOf(u) == n
  {
    assert Digits(n) + "" == Digits(n);
    AtoiOfDigits(n, "");
  }

  class IntCell {
    var value: int

    constructor (value: int)
      ensures this.value == value
    {
      this.value := value;
    }
  }

  /** memcpy followed by a terminating NUL. */
  method CopyString(dst: array<char>, s: string)
    requires |s| < dst.Length && '\0' !in s
    modifies dst
    ensures dst[..] == s + "\0" + old(dst[..])[|s| + 1..]
    ensures CString(dst[..]) == s && '\0' in dst[..]
  {
    forall k | 0 <= k < |s| {
      dst[k] := s[k];
    }
    dst[|s|] := '\0';
    assert dst[..][|s|] == '\0';
    CStringIs(dst[..], s);
  }

  /** Cut the port off the host in place, and read it. */
  method CutPort(host: array<char>, port: IntCell)
    requires '\0' in host[..]
    modifies host, port
    ensures var auth := old(CString(host[..]));
            var colon := IndexOf(auth, ':');
            && CString(host[..]) == auth[..colon]
            && port.value == if colon < |auth| then Atoi(auth[colon + 1..]) else 80
  {
    ghost var auth := CString(host[..]);
    var colon := IndexOf(CString(host[..]), ':');
    if colon < |CString(host[..])| {
      host[colon] := '\0';
      CStringIs(host[..], auth[..colon]);
      CStringIs(host[colon + 1..], auth[colon + 1..]);
      port.value := Atoi(CString(host[colon + 1..]));
    } else {
      assert auth[..colon] == auth;
      port.value := DEFAULT_PORT;
    }
  }

  /** `http_parse_url`. The buffers must be large enough for what the URL puts in them. */
  method ParseUrl(url: Option<string>, host: array?<char>, file: array?<char>, port: IntCell?) returns (rc: int)
    requires host != null && file != null ==> host != file
    requires url.Some? ==> '\0' !in url.value
    requires url.Some? && Split(url.value).Some? && host != null && file != null && port != null ==>
               var u := Split(url.value).value;
               |Authority(u)| < host.Length && (u.path.Some? && u.path.value != "" ==> |u.path.value| < file.Length)
    modifies host, file, port
    ensures rc == 0 || rc == -1
    ensures rc == 0 <==> host != null && file != null && port != null && url.Some?
                         && ("http://" <= url.value || "https://" <= url.value)
    ensures rc == -1 ==> (host != null ==> host[..] == old(host[..])) && (file != null ==> file[..] == old(file[..]))
                         && (port != null ==> port.value == old(port.value))
    ensures rc == 0 ==> var u := Split(url.value).value;
                        CString(host[..]) == u.host && port.value == PortOf(u)
    ensures rc == 0 ==> var u := Split(url.value).value;
                        if u.path.Some? && u.path.value != "" then CString(file[..]) == u.path.value
                        else file[..] == old(file[..])
  {
    if url.None? || host == null || file == null || port == null {
      return -1;
    }
    var ptr1 := url.value;
    if Scheme(false) <= ptr1 {
      ptr1 := ptr1[|Scheme(false)|..];
    } else if Scheme(true) <= ptr1 {
      ptr1 := ptr1[|Scheme(true)|..];
    } else {
      return -1;
    }
    PrintOfSplitRest(Split(url.value).value.secure, ptr1);
    FillBuffers(ptr1, host, file);
    CutPort(host, port);
    return 0;
  }

  /** Copy the text before the first '/' to one buffer and, unless empty, the rest to the other. */
  method FillBuffers(ptr1: string, host: array<char>, file: array<char>)
    requires host != file && '\0' !in ptr1
    requires var (auth, path) := Cut(ptr1, '/');
             |auth| < host.Length && (path.Some? && path.value != "" ==> |path.value| < file.Length)
    modifies host, file
    ensures CString(host[..]) == Cut(ptr1, '/').0 && '\0' in host[..]
    ensures var path := Cut(ptr1, '/').1;
            if path.Some? && path.value != "" then CString(file[..]) == path.value
            else file[..] == old(file[..])
  {
    var slash := IndexOf(ptr1, '/');
    if slash < |ptr1| {
      CopyString(host, ptr1[..slash]);
      if slash + 1 < |ptr1| {
        CopyString(file, ptr1[slash + 1..]);
      }
    } else {
      assert ptr1[..slash] == ptr1;
      CopyString(host, ptr1);
    }
  }
}
