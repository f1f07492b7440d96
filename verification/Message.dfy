/** HTTP messages: building requests, and splitting a message at its blank line. */
module Message {
  import opened CLib

  const CRLF := "\r\n"
  const BLANK := "\r\n\r\n"
  const FORM_TYPE := "Content-type: application" + "/x-www-form-urlencoded"

  // ---- the texts the client builds ----

  /** The format string of `http_post_head_create`, filled in. */
  function PostText(url: string, domain: string, length: int, content: string): string {
    PostHead(url, domain, length) + content
  }

  function PostHead(url: string, domain: string, length: int): string {
    "POST /" + url + " HTTP/1.1\r\n" +
    "Host:" + domain + "\r\n" +
    "Accept: */*\r\n" +
    "Pragma: no-cache\r\n" +
    "Connection: close\r\n" +
    FORM_TYPE + "\r\n" +
    "Content-length:" + Decimal(length) + "\r\n\r\n"
  }

  /** `http_post_head_create`. */
  method PostHeadCreate(url: string, domain: string, request: array<char>, size: nat, content: string, length: int)
    returns (rc: int)
    requires size <= request.Length
    requires '\0' !in url && '\0' !in domain && '\0' !in content
    modifies request
    ensures rc == 0
    ensures size > 0 ==> CString(request[..]) == Snprintf(size, PostText(url, domain, length, content))
    ensures size > 0 ==> forall k | |CString(request[..])| <= k < size :: request[k] == '\0'
    ensures forall k | size <= k < request.Length :: request[k] == old(request[k])
  {
    NoNul(url, domain, length, content);
    if size > 0 {
      FillRequest(request, size, PostText(url, domain, length, content));
    }
    return 0;
  }

  /** memset, then snprintf of a text. */
  method FillRequest(request: array<char>, size: nat, text: string)
    requires 0 < size <= request.Length && '\0' !in text
    modifies request
    ensures CString(request[..]) == Snprintf(size, text)
    ensures forall k | |CString(request[..])| <= k < size :: request[k] == '\0'
    ensures forall k | size <= k < request.Length :: request[k] == old(request[k])
  {
    forall k | 0 <= k < size {
      request[k] := '\0';
    }
    var kept := Snprintf(size, text);
    forall k | 0 <= k < |kept| {
      request[k] := kept[k];
    }
    assert request[..][|kept|] == '\0';
    CStringIs(request[..], kept);
  }

  lemma FormTypeIs()
    ensures FORM_TYPE == "Content-type: application/x-www-form-urlencoded"
  {
  }

  lemma PlainFormType()
    ensures '\0' !in FORM_TYPE && Plain(FORM_TYPE)
  {
    PlainFormTypeStart();
    PlainFormTypeEnd();
  }

  lemma PlainFormTypeStart()
    ensures '\0' !in "Content-type: application" && Plain("Content-type: application")
  {
  }

  lemma PlainFormTypeEnd()
    ensures '\0' !in "/x-www-form-urlencoded" && Plain("/x-www-form-urlencoded")
  {
  }

  lemma NoNul(url: string, domain: string, length: int, content: string)
    requires '\0' !in url && '\0' !in domain && '\0' !in content
    ensures '\0' !in PostText(url, domain, length, content)
  {
    NoNulInStart(url, domain);
    NoNulInFields();
    PlainFormType();
    var start := "POST /" + url + " HTTP/1.1\r\n" + "Host:" + domain + "\r\n";
    var fields := start + "Accept: */*\r\n" + "Pragma: no-cache\r\n" + "Connection: close\r\n";
    var head := fields + FORM_TYPE + "\r\n" + "Content-length:" + Decimal(length) + "\r\n\r\n";
    assert '\0' !in fields;
    assert '\0' !in head;
    assert PostHead(url, domain, length) == head;
  }

  lemma NoNulInStart(url: string, domain: string)
    requires '\0' !in url && '\0' !in domain
    ensures '\0' !in "POST /" + url + " HTTP/1.1\r\n" + "Host:" + domain + "\r\n"
  {
    var a := "POST /" + url + " HTTP/1.1\r\n";
    assert '\0' !in a;
  }

  lemma NoNulInFields()
    ensures '\0' !in "Accept: */*\r\n" && '\0' !in "Pragma: no-cache\r\n"
    ensures '\0' !in "Connection: close\r\n" && '\0' !in "Content-length:"
  {
  }

  // ---- splitting ----

  /** What follows the first blank line, found as `http_parse_result` finds it. */
  function Body(text: string): Option<string> {
    var i := Find(text, BLANK);
    if i.Some? then Some(text[i.value + |BLANK|..]) else None
  }

  /** A line of text: no carriage return, no line feed. */
  ghost predicate Plain(s: string) {
    '\r' !in s && '\n' !in s
  }

  /** A head whose last character completes its first blank line is split off exactly. */
  lemma BodyIff(head: string, content: string)
    requires |head| >= |BLANK| && head[|head| - |BLANK|..] == BLANK
    ensures Body(head + content) == Some(content) <==> !Contains(head[..|head| - 1], BLANK)
    ensures !Contains(head[..|head| - 1], BLANK) ==> Find(head + content, BLANK) == Some(|head| - |BLANK|)
  {
    var text, m, at := head + content, head[..|head| - 1], |head| - |BLANK|;
    assert text[at..at + |BLANK|] == head[at..];
    forall j: nat | j < at
      ensures MatchAt(text, BLANK, j) <==> MatchAt(m, BLANK, j)
    {
      assert text[j..j + |BLANK|] == m[j..j + |BLANK|];
    }
    if Contains(m, BLANK) {
      var j: nat :| MatchAt(m, BLANK, j);
      assert j < at && Find(text, BLANK).Some? && Find(text, BLANK).value < at;
    } else {
      FindIs(text, BLANK, at);
      assert text[|head|..] == content;
    }
  }

  /** A cut message loses part of its body, or its blank line. */
  lemma CutBody(head: string, content: string, size: nat)
    requires |head| >= |BLANK| && head[|head| - |BLANK|..] == BLANK && !Contains(head[..|head| - 1], BLANK)
    requires size > 0
    ensures Body(Snprintf(size, head + content)) == Some(content) <==> |head + content| < size
  {
    var text := head + content;
    var cut := Snprintf(size, text);
    BodyIff(head, content);
    if |text| >= size && Body(cut).Some? {
      var i := Find(cut, BLANK).value;
      assert cut[i..i + |BLANK|] == text[i..i + |BLANK|];
      assert MatchAt(text, BLANK, i);
      assert i >= |head| - |BLANK|;
      assert |Body(cut).value| < |content|;
    }
  }

  lemma MatchCharacters(s: string, i: nat)
    requires MatchAt(s, BLANK, i)
    ensures s[i..i + |BLANK|] == BLANK
    ensures forall k | i <= k < i + |BLANK| :: s[k] in BLANK
  {
    forall k | i <= k < i + |BLANK|
      ensures s[k] in BLANK
    {
      assert s[i..i + |BLANK|][k - i] == s[k];
    }
  }

  /** An occurrence of the blank line never spans another character. */
  lemma ContainsAround(s: string, c: char, t: string)
    requires c !in BLANK
    ensures Contains(s + [c] + t, BLANK) <==> Contains(s, BLANK) || Contains(t, BLANK)
  {
    if Contains(s + [c] + t, BLANK) {
      var i: nat :| MatchAt(s + [c] + t, BLANK, i);
      MatchOnOneSide(s, c, t, i);
    }
    if Contains(s, BLANK) {
      var i: nat :| MatchAt(s, BLANK, i);
      MatchInside([], s, [c] + t, i);
      assert [] + s + ([c] + t) == s + [c] + t;
    }
    if Contains(t, BLANK) {
      var i: nat :| MatchAt(t, BLANK, i);
      MatchInside(s + [c], t, [], i);
      assert s + [c] + t + [] == s + [c] + t;
    }
  }

  lemma MatchInside(a: string, s: string, b: string, i: nat)
    requires MatchAt(s, BLANK, i)
    ensures MatchAt(a + s + b, BLANK, |a| + i)
  {
    assert (a + s + b)[|a| + i..|a| + i + |BLANK|] == s[i..i + |BLANK|];
  }

  lemma MatchOnOneSide(s: string, c: char, t: string, i: nat)
    requires c !in BLANK && MatchAt(s + [c] + t, BLANK, i)
    ensures MatchAt(s, BLANK, i) || (i > |s| && MatchAt(t, BLANK, i - |s| - 1))
  {
    var u := s + [c] + t;
    MatchCharacters(u, i);
    assert u[|s|] == c;
    if i + |BLANK| <= |s| {
      assert s[i..i + |BLANK|] == u[i..i + |BLANK|];
    } else if i > |s| {
      var j := i - |s| - 1;
      assert t[j..j + |BLANK|] == u[i..i + |BLANK|];
    } else {
      assert false;
    }
  }

  /** Appending a nonempty line and part of a line end makes no blank line. */
  lemma ContainsAfter(s: string, line: string, t: string)
    requires Plain(line) && line != [] && |t| < |BLANK|
    ensures Contains(s + line + t, BLANK) <==> Contains(s, BLANK)
  {
    var rest := line[1..] + t;
    assert s + line + t == s + [line[0]] + rest;
    assert line[0] in line;
    ContainsAround(s, line[0], rest);
    NoBlankInLine(line[1..], t);
  }

  lemma {:induction false} NoBlankInLine(line: string, t: string)
    requires Plain(line) && |t| < |BLANK|
    ensures !Contains(line + t, BLANK)
  {
    if line == [] {
      assert line + t == t;
    } else {
      assert line[0] in line;
      NoBlankInLine(line[1..], t);
      assert [] + [line[0]] + (line[1..] + t) == line + t;
      ContainsAround([], line[0], line[1..] + t);
    }
  }

  // ---- lines ----

  /** Lines separated by CRLF. */
  ghost function Joined(ls: seq<string>): string
    requires ls != []
  {
    if |ls| == 1 then ls[0] else Joined(ls[..|ls| - 1]) + CRLF + ls[|ls| - 1]
  }

  ghost predicate PlainLines(ls: seq<string>) {
    ls != [] && forall i | 0 <= i < |ls| :: Plain(ls[i]) && ls[i] != []
  }

  lemma {:induction false} ContainsAfterLines(s: string, ls: seq<string>, t: string)
    requires PlainLines(ls) && |t| < |BLANK|
    ensures Contains(s + Joined(ls) + t, BLANK) <==> Contains(s, BLANK)
  {
    var last := ls[|ls| - 1];
    if |ls| == 1 {
      ContainsAfter(s, last, t);
    } else {
      var front := ls[..|ls| - 1];
      ContainsAfterLines(s, front, CRLF);
      ContainsAfter(s + Joined(front) + CRLF, last, t);
      assert s + Joined(ls) + t == s + Joined(front) + CRLF + last + t;
    }
  }

  /** Reading the lines back, each ending at the next CRLF. */
  function Lines(s: string): seq<string>
    decreases |s|
  {
    var i := Find(s, CRLF);
    if i.None? then [s] else [s[..i.value]] + Lines(s[i.value + |CRLF|..])
  }

  lemma {:induction false} LinesOfJoined(ls: seq<string>)
    requires ls != [] && forall i | 0 <= i < |ls| :: Plain(ls[i])
    ensures Lines(Joined(ls)) == ls
  {
    if |ls| == 1 {
      NoCrlf(ls[0]);
    } else {
      JoinedFront(ls);
      LinesOfJoined(ls[1..]);
      NoCrlf(ls[0]);
      FirstLine(ls[0], Joined(ls[1..]));
    }
  }

  /** A text without line ends of the protocol; lone carriage returns or line feeds are none. */
  ghost predicate OneLine(s: string) {
    !Contains(s, CRLF)
  }

  lemma CrlfAt(s: string, j: nat)
    ensures MatchAt(s, CRLF, j) <==> j + 1 < |s| && s[j] == '\r' && s[j + 1] == '\n'
  {
    if j + |CRLF| <= |s| {
      assert s[j..j + |CRLF|] == [s[j], s[j + 1]];
    }
  }

  /** Only what stands between plain pieces can break a line. */
  lemma OneLineIff(a: string, s: string, b: string)
    requires Plain(a) && Plain(b)
    ensures OneLine(a + s + b) <==> OneLine(s)
  {
    var u := a + s + b;
    assert forall k | 0 <= k < |a| :: u[k] in a;
    assert forall k | |a| + |s| <= k < |u| :: u[k] in b;
    if j: nat :| MatchAt(u, CRLF, j) {
      CrlfAt(u, j);
      CrlfAt(s, j - |a|);
    }
    if j: nat :| MatchAt(s, CRLF, j) {
      CrlfAt(s, j);
      CrlfAt(u, |a| + j);
    }
  }

  lemma NoCrlf(line: string)
    requires Plain(line)
    ensures OneLine(line)
  {
    forall j: nat
      ensures !MatchAt(line, CRLF, j)
    {
      CrlfAt(line, j);
    }
  }

  lemma {:induction false} LinesAreOneLine(s: string, k: nat)
    requires k < |Lines(s)|
    ensures OneLine(Lines(s)[k])
    decreases |s|
  {
    var i := Find(s, CRLF);
    if i.None? {
    } else if k > 0 {
      LinesAreOneLine(s[i.value + |CRLF|..], k - 1);
    } else {
      forall j: nat
        ensures !MatchAt(s[..i.value], CRLF, j)
      {
        CrlfAt(s[..i.value], j);
        CrlfAt(s, j);
      }
    }
  }

  lemma FirstLine(line: string, rest: string)
    requires OneLine(line)
    ensures Find(line + CRLF + rest, CRLF) == Some(|line|)
    ensures (line + CRLF + rest)[..|line|] == line && (line + CRLF + rest)[|line| + |CRLF|..] == rest
  {
    var s := line + CRLF + rest;
    assert s[|line|..|line| + |CRLF|] == CRLF;
    forall j: nat | j < |line|
      ensures !MatchAt(s, CRLF, j)
    {
      CrlfAt(s, j);
      CrlfAt(line, j);
    }
    FindIs(s, CRLF, |line|);
  }

  lemma {:induction false} JoinedFront(ls: seq<string>)
    requires |ls| >= 2
    ensures Joined(ls) == ls[0] + CRLF + Joined(ls[1..])
  {
    if |ls| > 2 {
      var front := ls[..|ls| - 1];
      JoinedFront(front);
      assert front[1..] == ls[1..][..|ls| - 2];
      assert Joined(ls[1..]) == Joined(front[1..]) + CRLF + ls[|ls| - 1];
      assert front[0] + CRLF + Joined(front[1..]) + CRLF + ls[|ls| - 1]
          == ls[0] + CRLF + (Joined(front[1..]) + CRLF + ls[|ls| - 1]);
    } else {
      assert ls[..1] == [ls[0]] && ls[1..] == [ls[1]];
    }
  }

  // ---- what the requests carry ----

  /** Neither the URL nor the Host line brings a blank line of its own. */
  ghost predicate NoInjection(url: string, domain: string) {
    !Contains(url, BLANK) && !Contains(domain + CRLF, BLANK)
  }

  /** The header lines that follow Host in a POST request. */
  ghost function PostFields(length: int): seq<string> {
    ["Accept: */*", "Pragma: no-cache", "Connection: close", FORM_TYPE, "Content-length:" + Decimal(length)]
  }

  lemma PlainDecimal(n: int)
    ensures Plain(Decimal(n)) && Decimal(n) != []
  {
  }

  lemma PlainPostFields(length: int)
    ensures PlainLines(PostFields(length))
  {
    PlainDecimal(length);
    PlainFormType();
    assert Plain("Accept: */*") && Plain("Pragma: no-cache") && Plain("Connection: close") && Plain("Content-length:");
  }

  lemma PostFieldsText(length: int)
    ensures Joined(PostFields(length)) ==
            "Accept: */*\r\n" + "Pragma: no-cache\r\n" + "Connection: close\r\n" + FORM_TYPE + "\r\n"
            + "Content-length:" + Decimal(length)
  {
    var ls := PostFields(length);
    JoinedBack(ls[..1], ls[1]);
    JoinedBack(ls[..2], ls[2]);
    JoinedBack(ls[..3], ls[3]);
    JoinedBack(ls[..4], ls[4]);
    assert ls[..1] == ["Accept: */*"] && ls[..1] + [ls[1]] == ls[..2] && ls[..2] + [ls[2]] == ls[..3];
    assert ls[..3] + [ls[3]] == ls[..4] && ls[..4] + [ls[4]] == ls;
    RegroupFields("Accept: */*", "Pragma: no-cache", "Connection: close", FORM_TYPE,
                  "Content-length:", Decimal(length));
    FieldEnds();
  }

  lemma FieldEnds()
    ensures "Accept: */*" + CRLF == "Accept: */*\r\n"
    ensures "Pragma: no-cache" + CRLF == "Pragma: no-cache\r\n"
    ensures "Connection: close" + CRLF == "Connection: close\r\n"
  {
  }

  lemma JoinedBack(ls: seq<string>, line: string)
    requires ls != []
    ensures Joined(ls + [line]) == Joined(ls) + CRLF + line
  {
    assert (ls + [line])[..|ls|] == ls;
  }

  lemma RegroupFields(a: string, b: string, c: string, d: string, e: string, f: string)
    ensures a + CRLF + b + CRLF + c + CRLF + d + CRLF + (e + f)
            == (a + CRLF) + (b + CRLF) + (c + CRLF) + d + CRLF + e + f
  {
  }

  /** A request line with the URL, a Host line and further fields, up to the blank line. */
  ghost function Head(url: string, domain: string, fields: seq<string>): string
    requires fields != []
  {
    RequestStart(url, domain) + (Joined(fields) + BLANK)
  }

  ghost function RequestStart(url: string, domain: string): string {
    "POST /" + url + " HTTP/1.1\r\n" + "Host:" + domain + "\r\n"
  }

  lemma PostHeadIs(url: string, domain: string, length: int)
    ensures PostHead(url, domain, length) == Head(url, domain, PostFields(length))
  {
    PostFieldsText(length);
    var a := "POST /" + url + " HTTP/1.1\r\n" + "Host:" + domain + "\r\n";
    assert a == RequestStart(url, domain);
    Regroup(a, "Accept: */*\r\n", "Pragma: no-cache\r\n", "Connection: close\r\n", FORM_TYPE, "\r\n",
            "Content-length:", Decimal(length), BLANK);
  }

  lemma Regroup(a: string, b: string, c: string, d: string, e: string, f: string, g: string, h: string, i: string)
    ensures a + b + c + d + e + f + g + h + i == a + (b + c + d + e + f + g + h + i)
  {
  }

  /** The only blank lines a head can hold before its end are those the URL or the domain
    * smuggle in. */
  lemma HeadContainsIff(url: string, domain: string, fields: seq<string>)
    requires PlainLines(fields)
    ensures var h := Head(url, domain, fields);
            && |h| >= |BLANK| && h[|h| - |BLANK|..] == BLANK
            && (Contains(h[..|h| - 1], BLANK) <==> !NoInjection(url, domain))
  {
    var h := Head(url, domain, fields);
    var end := "\r\n\r";
    var tail := domain + CRLF + Joined(fields) + end;
    ContainsAfterLines(domain + CRLF, fields, end);
    ContainsAround(HOST_LINE_START, ':', tail);
    NoBlankBeforeHost();
    ContainsAround(url, ' ', HOST_LINE_START + ":" + tail);
    ContainsAround("POST ", '/', url + " " + (HOST_LINE_START + ":" + tail));
    NoBlankInLine("POST ", []);
    assert "POST " + [] == "POST ";
    HeadShape(url, domain, Joined(fields));
  }

  const HOST_LINE_START := "HTTP/1.1\r\nHost"

  lemma NoBlankBeforeHost()
    ensures !Contains(HOST_LINE_START, BLANK)
  {
    ContainsAfter([], "HTTP/1.1", CRLF);
    ContainsAfter("HTTP/1.1\r\n", "Host", []);
    assert [] + "HTTP/1.1" + CRLF == "HTTP/1.1\r\n";
    assert "HTTP/1.1\r\n" + "Host" + [] == HOST_LINE_START;
  }

  lemma HeadShape(url: string, domain: string, fields: string)
    ensures var h := RequestStart(url, domain) + (fields + BLANK);
            && h[..|h| - 1]
               == "POST " + "/" + (url + " " + (HOST_LINE_START + ":" + (domain + CRLF + fields + "\r\n\r")))
            && h[|h| - |BLANK|..] == BLANK
  {
    var h := RequestStart(url, domain) + (fields + BLANK);
    assert h[..|h| - 1] == RequestStart(url, domain) + (fields + "\r\n\r");
    assert "POST /" == "POST " + "/" && " HTTP/1.1\r\n" + "Host:" == " " + HOST_LINE_START + ":";
    assert RequestStart(url, domain) == "POST " + "/" + (url + " " + (HOST_LINE_START + ":" + (domain + CRLF)));
  }

  /** Splitting and cutting, for a head whose only other blank lines come under `injected`. */
  lemma SplitAndCut(h: string, content: string, size: nat, injected: bool)
    requires |h| >= |BLANK| && h[|h| - |BLANK|..] == BLANK
    requires Contains(h[..|h| - 1], BLANK) <==> injected
    ensures Body(h + content) == Some(content) <==> !injected
    ensures !injected ==> Find(h + content, BLANK) == Some(|h| - |BLANK|)
    ensures !injected && size > 0 ==>
              (Body(Snprintf(size, h + content)) == Some(content) <==> |h + content| < size)
  {
    BodyIff(h, content);
    if !injected && size > 0 {
      CutBody(h, content, size);
    }
  }

  lemma PostHeadContainsIff(url: string, domain: string, length: int)
    ensures var h := PostHead(url, domain, length);
            && |h| >= |BLANK| && h[|h| - |BLANK|..] == BLANK
            && (Contains(h[..|h| - 1], BLANK) <==> !NoInjection(url, domain))
  {
    PostHeadIs(url, domain, length);
    PlainPostFields(length);
    HeadContainsIff(url, domain, PostFields(length));
  }

  /** Whatever its length argument, a request that is not cut is split back into its content
    * exactly when nothing is injected. */
  lemma PostBodyIff(url: string, domain: string, length: int, content: string)
    ensures Body(PostText(url, domain, length, content)) == Some(content) <==> NoInjection(url, domain)
  {
    PostHeadContainsIff(url, domain, length);
    SplitAndCut(PostHead(url, domain, length), content, 0, !NoInjection(url, domain));
  }

  /** Without injection, what the buffer holds is split into the content exactly when the
    * whole request fits. */
  lemma PostFitsIff(url: string, domain: string, length: int, content: string, size: nat)
    requires size > 0 && NoInjection(url, domain)
    ensures Body(Snprintf(size, PostText(url, domain, length, content))) == Some(content)
            <==> |PostText(url, domain, length, content)| < size
  {
    PostHeadContainsIff(url, domain, length);
    SplitAndCut(PostHead(url, domain, length), content, size, false);
  }

  lemma OneLineIsNoInjection(url: string, domain: string)
    requires OneLine(url) && OneLine(domain)
    ensures NoInjection(url, domain)
  {
    forall i: nat
      ensures !MatchAt(url, BLANK, i) && !MatchAt(domain + CRLF, BLANK, i)
    {
      if MatchAt(url, BLANK, i) {
        BlankAt(url, i);
        CrlfAt(url, i);
      }
      if MatchAt(domain + CRLF, BLANK, i) {
        BlankAt(domain + CRLF, i);
        CrlfAt(domain, i);
      }
    }
  }

  lemma BlankAt(s: string, i: nat)
    requires MatchAt(s, BLANK, i)
    ensures i + 3 < |s| && s[i] == '\r' && s[i + 1] == '\n'
  {
    assert s[i..i + |BLANK|][0] == s[i] && s[i..i + |BLANK|][1] == s[i + 1];
  }

  // ---- reading a request back ----

  /** The value of the first header line that starts with the given name. */
  function Field(lines: seq<string>, name: string): Option<string> {
    if lines == [] then None
    else if name <= lines[0] then Some(lines[0][|name|..])
    else Field(lines[1..], name)
  }

  /** Read as a message, the text has the POST request line of url, the given host, the
    * content as its body, and the length of the content in its Content-length field. */
  ghost predicate ReadsAs(text: string, url: string, domain: string, content: string) {
    var at := Find(text, BLANK);
    && Body(text) == Some(content)
    && at.Some?
    && var lines := Lines(text[..at.value]);
       && |lines| > 0 && lines[0] == "POST /" + url + " HTTP/1.1"
       && Field(lines[1..], "Host:") == Some(domain)
       && |lines| == 7
       && lines[2..6] == ["Accept: */*", "Pragma: no-cache", "Connection: close",
                          "Content-type: application/x-www-form-urlencoded"]
       && Field(lines[1..], "Content-length:").Some?
       && Atoi(Field(lines[1..], "Content-length:").value) == |content|
  }

  /** A server that reads a POST request finds what the client meant exactly when neither
    * argument brings a line end: one in the URL or the domain would be read as the end of its
    * line, and what follows it as further headers or as the body. */
  lemma PostReadsBackIff(url: string, domain: string, content: string)
    ensures ReadsAs(PostText(url, domain, |content|, content), url, domain, content)
            <==> OneLine(url) && OneLine(domain)
  {
    var request := PostText(url, domain, |content|, content);
    if OneLine(url) && OneLine(domain) {
      var text, at := PostAsLines(url, domain, content);
      ReadFromLines(text, at, url, domain, content);
    } else if ReadsAs(request, url, domain, content) {
      ReadIsOneLine(request, url, domain, content);
    }
  }

  /** What is read from a line holds no line end. */
  lemma ReadIsOneLine(text: string, url: string, domain: string, content: string)
    requires ReadsAs(text, url, domain, content)
    ensures OneLine(url) && OneLine(domain)
  {
    var head := text[..Find(text, BLANK).value];
    LinesAreOneLine(head, 0);
    assert Plain("POST /") && Plain(" HTTP/1.1");
    OneLineIff("POST /", url, " HTTP/1.1");
    var k := FieldLine(Lines(head)[1..], "Host:");
    LinesAreOneLine(head, k + 1);
    HostLine(domain);
  }

  lemma {:induction false} FieldLine(lines: seq<string>, name: string) returns (k: nat)
    requires Field(lines, name).Some?
    ensures k < |lines| && lines[k] == name + Field(lines, name).value
  {
    if name <= lines[0] {
      k := 0;
    } else {
      k := FieldLine(lines[1..], name);
      k := k + 1;
    }
  }

  lemma HostLine(domain: string)
    ensures OneLine("Host:" + domain) <==> OneLine(domain)
  {
    assert Plain("Host:");
    OneLineIff("Host:", domain, []);
    assert "Host:" + domain + [] == "Host:" + domain;
  }

  lemma PostAsLines(url: string, domain: string, content: string) returns (text: string, at: nat)
    requires OneLine(url) && OneLine(domain)
    ensures text == PostText(url, domain, |content|, content) && at <= |text|
    ensures Find(text, BLANK) == Some(at) && Body(text) == Some(content)
    ensures Lines(text[..at]) == ["POST /" + url + " HTTP/1.1", "Host:" + domain] + PostFields(|content|)
  {
    var head := OneLinePostHead(url, domain, |content|);
    text, at := head + content, |head| - |BLANK|;
    BodyIff(head, content);
    assert text[..at] == head[..at];
  }

  lemma OneLinePostHead(url: string, domain: string, length: int) returns (head: string)
    requires OneLine(url) && OneLine(domain)
    ensures head == PostHead(url, domain, length)
    ensures |head| >= |BLANK| && head[|head| - |BLANK|..] == BLANK && !Contains(head[..|head| - 1], BLANK)
    ensures Lines(head[..|head| - |BLANK|]) == ["POST /" + url + " HTTP/1.1", "Host:" + domain] + PostFields(length)
  {
    head := Head(url, domain, PostFields(length));
    PostHeadIs(url, domain, length);
    PlainPostFields(length);
    OneLineIsNoInjection(url, domain);
    HeadContainsIff(url, domain, PostFields(length));
    HeadLines(url, domain, PostFields(length));
  }

  lemma ReadFromLines(text: string, at: nat, url: string, domain: string, content: string)
    requires Find(text, BLANK) == Some(at) && Body(text) == Some(content) && at <= |text|
    requires Lines(text[..at]) == ["POST /" + url + " HTTP/1.1", "Host:" + domain] + PostFields(|content|)
    ensures ReadsAs(text, url, domain, content)
  {
    FindsFields(url, domain, |content|);
    FixedFields(text[..at], url, domain, |content|);
  }

  lemma FixedFields(head: string, url: string, domain: string, length: int)
    requires Lines(head) == ["POST /" + url + " HTTP/1.1", "Host:" + domain] + PostFields(length)
    ensures |Lines(head)| == 7
    ensures Lines(head)[2..6] == ["Accept: */*", "Pragma: no-cache", "Connection: close",
                                  "Content-type: application/x-www-form-urlencoded"]
  {
    FormTypeIs();
    assert Lines(head)[2..6] == PostFields(length)[..4];
  }

  lemma HeadLines(url: string, domain: string, fields: seq<string>)
    requires OneLine(url) && OneLine(domain) && PlainLines(fields)
    ensures var h := Head(url, domain, fields);
            Lines(h[..|h| - |BLANK|]) == ["POST /" + url + " HTTP/1.1", "Host:" + domain] + fields
  {
    var h := Head(url, domain, fields);
    var first, second := "POST /" + url + " HTTP/1.1", "Host:" + domain;
    StartLines(url, domain);
    Reassociate(first, second, Joined(fields));
    assert h[..|h| - |BLANK|] == RequestStart(url, domain) + Joined(fields);
    FirstLine(first, second + CRLF + Joined(fields));
    FirstLine(second, Joined(fields));
    LinesOfJoined(fields);
    assert [first] + ([second] + fields) == [first, second] + fields;
  }

  lemma Reassociate(a: string, b: string, c: string)
    ensures a + CRLF + (b + CRLF) + c == a + CRLF + (b + CRLF + c)
  {
  }

  lemma StartLines(url: string, domain: string)
    requires OneLine(url) && OneLine(domain)
    ensures RequestStart(url, domain)
            == ("POST /" + url + " HTTP/1.1") + CRLF + (("Host:" + domain) + CRLF)
    ensures OneLine("POST /" + url + " HTTP/1.1") && OneLine("Host:" + domain)
  {
    assert " HTTP/1.1\r\n" == " HTTP/1.1" + CRLF;
    assert Plain("POST /") && Plain(" HTTP/1.1");
    OneLineIff("POST /", url, " HTTP/1.1");
    HostLine(domain);
  }

  lemma FieldSkip(line: string, rest: seq<string>, name: string, k: nat)
    requires k < |line| && k < |name| && line[k] != name[k]
    ensures Field([line] + rest, name) == Field(rest, name)
  {
    assert !(name <= line);
  }

  lemma FieldHit(name: string, value: string, rest: seq<string>)
    ensures Field([name + value] + rest, name) == Some(value)
  {
  }

  lemma FindsFields(url: string, domain: string, n: nat)
    ensures var ls := (["POST /" + url + " HTTP/1.1", "Host:" + domain] + PostFields(n))[1..];
            && Field(ls, "Host:") == Some(domain)
            && Field(ls, "Content-length:") == Some(Digits(n))
            && Atoi(Digits(n)) == n
  {
    var name, last := "Content-length:", ["Content-length:" + Digits(n)];
    FieldHit(name, Digits(n), []);
    FieldSkip(FORM_TYPE, last, name, 8);
    FieldSkip("Connection: close", [FORM_TYPE] + last, name, 3);
    FieldSkip("Pragma: no-cache", ["Connection: close"] + ([FORM_TYPE] + last), name, 0);
    FieldSkip("Accept: */*", ["Pragma: no-cache"] + (["Connection: close"] + ([FORM_TYPE] + last)), name, 0);
    var fields := ["Accept: */*"] + (["Pragma: no-cache"] + (["Connection: close"] + ([FORM_TYPE] + last)));
    assert PostFields(n) == fields;
    FieldSkip("Host:" + domain, fields, name, 0);
    FieldHit("Host:", domain, fields);
    assert (["POST /" + url + " HTTP/1.1", "Host:" + domain] + PostFields(n))[1..] == ["Host:" + domain] + fields;
    assert Digits(n) + [] == Digits(n);
    AtoiOfDigits(n, []);
  }

  // ---- responses ----

  const VERSION := "HTTP/1.1"

  /** What `http_parse_result` extracts from a buffer: the text after the first blank line,
    * provided the first "HTTP/1.1" is followed, one character on, by status 200. The status
    * is read from the raw buffer, which matters only when the text ends with "HTTP/1.1". */
  function Result(buffer: string): Option<string>
    requires '\0' in buffer
  {
    var text := CString(buffer);
    var p := Find(text, VERSION);
    if p.None? || Atoi(CString(buffer[p.value + |VERSION| + 1..])) != 200 then None else Body(text)
  }

  /** What any buffer yields: nothing without an "HTTP/1.1" or without a blank line; otherwise
    * the text after the first blank line if the status after the first "HTTP/1.1" is 200. */
  lemma ResultIs(buffer: string)
    requires '\0' in buffer
    ensures var text := CString(buffer);
            && (!Contains(text, "HTTP/1.1") || !Contains(text, "\r\n\r\n") ==> Result(buffer) == None)
            && forall p: nat, i: nat | FirstAt(text, "HTTP/1.1", p) && FirstAt(text, "\r\n\r\n", i) ::
                 Result(buffer) == if Atoi(CString(buffer[p + 9..])) == 200 then Some(text[i + 4..]) else None
  {
    var text := CString(buffer);
    FindIff(text, VERSION);
    FindIff(text, BLANK);
    forall p: nat, i: nat | FirstAt(text, "HTTP/1.1", p) && FirstAt(text, "\r\n\r\n", i)
      ensures Result(buffer) == if Atoi(CString(buffer[p + 9..])) == 200 then Some(text[i + 4..]) else None
    {
      assert Find(text, VERSION) == Some(p) && Body(text) == Some(text[i + 4..]);
    }
  }

  /** The receiving code splits a response and leaves the text in the buffer that `http_post`
    * then splits once more: unless that text names the version itself, it is refused. */
  lemma SecondParseRefuses(buffer: string, junk: string)
    requires '\0' in buffer && Result(buffer).Some? && !Contains(Result(buffer).value, "HTTP/1.1")
    ensures Result(Result(buffer).value + "\0" + junk) == None
  {
    var body := Result(buffer).value;
    var again := body + "\0" + junk;
    assert again[|body|] == '\0';
    CStringIs(again, body);
    ResultIs(again);
  }

  /** `http_parse_result`. */
  method ParseResult(lpbuf: array<char>) returns (response: array?<char>)
    requires '\0' in lpbuf[..]
    ensures response != null <==> Result(lpbuf[..]).Some?
    ensures response != null ==> fresh(response) && CString(response[..]) == Result(lpbuf[..]).value
  {
    ghost var result := Result(lpbuf[..]);
    var text := CString(lpbuf[..]);
    var ptmp := Find(text, VERSION);
    if ptmp.None? {
      return null;
    }
    var status := Atoi(CString(lpbuf[..][ptmp.value + |VERSION| + 1..]));
    if status != 200 {
      return null;
    }
    ptmp := Find(text, BLANK);
    if ptmp.None? {
      return null;
    }
    assert result == Some(text[ptmp.value + |BLANK|..]);
    response := Duplicate(text[ptmp.value + |BLANK|..], |text| - ptmp.value + 1);
  }

  /** malloc and strcpy. */
  method Duplicate(s: string, capacity: nat) returns (copy: array<char>)
    requires |s| < capacity && '\0' !in s
    ensures fresh(copy) && CString(copy[..]) == s
  {
    copy := new char[capacity];
    forall k | 0 <= k < |s| {
      copy[k] := s[k];
    }
    copy[|s|] := '\0';
    CStringIs(copy[..], s);
  }

  /** A response as a server sends it. */
  ghost function ResponseText(status: nat, reason: string, fields: seq<string>, body: string): string {
    Joined(["HTTP/1.1 " + Digits(status) + " " + reason] + fields) + BLANK + body
  }

  /** Whatever follows it in the buffer, a well-formed response yields its body exactly when
    * its status is 200, and nothing otherwise. */
  lemma ResponseRoundTrip(status: nat, reason: string, fields: seq<string>, body: string, junk: string)
    requires Plain(reason) && (fields != [] ==> PlainLines(fields))
    requires '\0' !in ResponseText(status, reason, fields, body)
    ensures Result(ResponseText(status, reason, fields, body) + "\0" + junk)
            == if status == 200 then Some(body) else None
  {
    var ls := ["HTTP/1.1 " + Digits(status) + " " + reason] + fields;
    var text := ResponseText(status, reason, fields, body);
    var rest := " " + reason + JoinedTail(ls) + BLANK + body;
    StatusLinePlain(status, reason);
    JoinedStarts(ls);
    ResponseShape(status, reason, JoinedTail(ls), body);
    StatusAt(text, status, rest, junk);
    ResponseBody(ls, body);
  }

  lemma ResponseShape(status: nat, reason: string, tail: string, body: string)
    ensures "HTTP/1.1 " + Digits(status) + " " + reason + tail + BLANK + body
            == VERSION + " " + Digits(status) + (" " + reason + tail + BLANK + body)
  {
    assert VERSION + " " == "HTTP/1.1 ";
  }

  lemma StatusLinePlain(status: nat, reason: string)
    requires Plain(reason)
    ensures Plain("HTTP/1.1 " + Digits(status) + " " + reason)
  {
    assert Plain("HTTP/1.1 ") && Plain(Digits(status)) && Plain(" ");
  }

  /** What a joined text holds after its first line. */
  ghost function JoinedTail(ls: seq<string>): string
    requires ls != []
  {
    if |ls| == 1 then [] else CRLF + Joined(ls[1..])
  }

  lemma JoinedStarts(ls: seq<string>)
    requires ls != []
    ensures Joined(ls) == ls[0] + JoinedTail(ls)
  {
    if |ls| > 1 {
      JoinedFront(ls);
    }
  }

  lemma StatusAt(text: string, status: nat, rest: string, junk: string)
    requires text == VERSION + " " + Digits(status) + rest && rest != [] && rest[0] == ' ' && '\0' !in text
    ensures Find(text, VERSION) == Some(0)
    ensures CString(text + "\0" + junk) == text
    ensures Atoi(CString((text + "\0" + junk)[|VERSION| + 1..])) == status
  {
    assert text[0..8] == VERSION;
    FindIs(text, VERSION, 0);
    var buffer := text + "\0" + junk;
    CStringIs(buffer, text);
    assert text[9..] == Digits(status) + rest;
    assert buffer[9..] == text[9..] + "\0" + junk;
    assert forall c | c in text[9..] :: c in text;
    CStringIs(buffer[9..], text[9..]);
    AtoiOfDigits(status, rest);
  }

  lemma ResponseBody(ls: seq<string>, body: string)
    requires PlainLines(ls)
    ensures Body(Joined(ls) + BLANK + body) == Some(body)
  {
    var head := Joined(ls) + BLANK;
    ContainsAfterLines([], ls, "\r\n\r");
    assert head[..|head| - 1] == [] + Joined(ls) + "\r\n\r";
    BodyIff(head, body);
  }
}
