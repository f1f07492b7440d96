/** The rotating logger over an abstract file system.
  * File contents, paths and messages are sequences of bytes, written as strings.
  */
module SLog {
  import opened CLib

  type Bytes = string
  type Files = map<string, Bytes>

  const BUF_SIZE := 1024
  const PATH_SIZE := 128

  // ---- the file system ----

  function Content(files: Files, path: string): Bytes {
    if path in files then files[path] else []
  }

  /** fopen in append mode creates the file if it is missing. */
  function Opened(files: Files, path: string): Files {
    files[path := Content(files, path)]
  }

  function Appended(files: Files, path: string, data: Bytes): Files {
    files[path := Content(files, path) + data]
  }

  function Removed(files: Files, path: string): Files {
    files - {path}
  }

  /** rename does nothing when the source is missing. */
  function Renamed(files: Files, src: string, dst: string): Files {
    if src in files then (files - {src})[dst := files[src]] else files
  }

  /** The copy of the path that strncpy keeps. A path of PATH_SIZE bytes or more leaves it
    * unterminated; the names made from it are cut before anything behind it can show. */
  function Stored(path: string): (r: string)
    ensures r <= path && |r| == if |path| <= 128 then |path| else 128
  {
    if |path| <= PATH_SIZE then path else path[..PATH_SIZE]
  }

  /** Names made from the copy are those made from the path, however long it is. */
  lemma StoredNames(path: string, suffix: string)
    ensures Snprintf(PATH_SIZE, Stored(path) + suffix) == Snprintf(PATH_SIZE, path + suffix)
  {
    if |path| > PATH_SIZE {
      assert (Stored(path) + suffix)[..PATH_SIZE - 1] == (path + suffix)[..PATH_SIZE - 1];
    }
  }

  // ---- the logger's state as a value ----

  /** The fields of slog_info_t together with the file system it writes to. */
  datatype State = State(files: Files, path: string, fp: string, size: nat, level: nat, num: int) {
    /** Is the stream open? Level 3 never opens one. */
    predicate Open() {
      level != 3 && fp in files
    }

    /** Does a message at this level reach the file? */
    predicate Writing() {
      level != 0 && level != 3
    }

    function New(): string {
      Snprintf(PATH_SIZE, path + ".new")
    }

    function Bak(): string {
      Snprintf(PATH_SIZE, path + ".bak")
    }

    /** The rotation condition of log_checksize. */
    predicate Full() {
      level != 3 && path != "" && |Content(files, fp)| > size
    }
  }

  /** The line a formatted text becomes: cut by vsnprintf, ended at any NUL, newline added. */
  function Line(text: string): (r: Bytes)
    ensures 0 < |r| <= BUF_SIZE
  {
    CString(Snprintf(BUF_SIZE, text)) + "\n"
  }

  /** A formatted text is written with its newline, or its first 1023 bytes are. */
  lemma LineIs(text: string)
    requires '\0' !in text
    ensures Line(text) == (if |text| < 1024 then text else text[..1023]) + "\n"
  {
    var message := if |text| < 1024 then text else text[..1023];
    CStringIs(Snprintf(BUF_SIZE, text), message);
  }

  /** A NUL in the formatted text ends the line. */
  lemma LineOfNul(front: string, back: string)
    requires '\0' !in front && |front| < 1023
    ensures Line(front + "\0" + back) == front + "\n"
  {
    var text := front + "\0" + back;
    assert text[|front|] == '\0' && text[..|front|] == front;
    CStringIs(Snprintf(BUF_SIZE, text), front);
  }

  /** What a log_debug call adds to the file; an empty text is not logged at all. */
  function Written(s: State, text: string): Bytes {
    if s.Writing() && text != "" then Line(text) else []
  }

  function Logged(s: State, text: string): State {
    if Written(s, text) == [] then s else s.(files := Appended(s.files, s.fp, Written(s, text)))
  }

  /** The files once a rotation has closed the stream, before it opens a new one. */
  function Closed(s: State): Files {
    if s.num != 0 then s.files else Renamed(Removed(s.files, s.Bak()), s.New(), s.Bak())
  }

  function Checked(s: State, now: int): State {
    if !s.Full() then s
    else
      var next := if s.num != 0 then Snprintf(PATH_SIZE, s.path + Decimal(now)) else s.New();
      s.(files := Opened(Closed(s), next), fp := next)
  }

  /** Every nonempty text is appended to the current file, at every level but 0 and 3; nothing
    * else changes. */
  lemma LoggedIs(s: State, text: string)
    requires '\0' !in text
    ensures s.level == 0 || s.level == 3 || text == "" ==> Logged(s, text) == s
    ensures s.level != 0 && s.level != 3 && text != "" ==>
              var line := (if |text| < 1024 then text else text[..1023]) + "\n";
              Logged(s, text) == s.(files := s.files[s.fp := Content(s.files, s.fp) + line])
  {
    LineIs(text);
  }

  /** log_checksize does nothing to a log within its size, at level 3, or with an empty path. */
  lemma SmallLogIsKept(s: State, now: int)
    requires |Content(s.files, s.fp)| <= s.size || s.level == 3 || s.path == ""
    ensures Checked(s, now) == s
  {
  }

  /** Above the size, with num = 0: the log becomes the backup, whatever that held, and the
    * new log is empty; nothing else changes. */
  lemma LargeLogIsRotated(s: State, now: int)
    requires s.num == 0 && s.level != 3 && s.path != "" && |Content(s.files, s.fp)| > s.size
    requires s.fp == Snprintf(128, s.path + ".new")
    ensures var bak := Snprintf(128, s.path + ".bak");
            && Checked(s, now) == s.(files := s.files[bak := s.files[s.fp]][s.fp := ""])
            && Closed(s) == s.files[bak := s.files[s.fp]] - {s.fp}
  {
  }

  /** Above the size, with num != 0: writing goes on in the file named by path and clock, which
    * is created if it is missing; every file keeps its contents. */
  lemma LargeLogIsLeft(s: State, now: int)
    requires s.num != 0 && s.level != 3 && s.path != "" && |Content(s.files, s.fp)| > s.size
    ensures var next := Snprintf(128, s.path + Decimal(now));
            && Checked(s, now) == s.(files := s.files[next := Content(s.files, next)], fp := next)
            && Closed(s) == s.files
            && forall p :: Content(Checked(s, now).files, p) == Content(s.files, p)
  {
  }

  lemma AppendsLine(s: State, text: string)
    ensures '\0' !in text && text != "" && s.level != 0 && s.level != 3 ==>
              Content(Logged(s, text).files, s.fp)
              == Content(s.files, s.fp) + (if |text| < 1024 then text else text[..1023]) + "\n"
  {
    if '\0' !in text {
      LoggedIs(s, text);
    }
  }

  // ---- the logger ----

  /** The global slog_t and the disk. */
  class Logger {
    var files: Files
    var console: seq<string>   // what printf showed
    var ready: bool            // slog_t is not NULL
    var streaming: bool        // its fp is not NULL
    var path: string
    var fp: string
    var size: nat
    var level: nat
    var num: int

    ghost function View(): State
      reads this
    {
      State(files, path, fp, size, level, num)
    }

    ghost predicate Valid()
      reads this
    {
      ready && level != 3 ==> streaming && View().Open()
    }

    constructor (files: Files)
      ensures Valid() && !ready && this.files == files && console == []
    {
      this.files, console, ready, streaming := files, [], false, false;
      path, fp, size, level, num := "", "", 0, 0, 0;
    }

    /** `opens` tells whether fopen succeeds. */
    method Init(path: Option<string>, size: int, level: int, num: int, opens: bool) returns (code: int)
      modifies this
      ensures old(Valid()) ==> Valid()
      ensures code == 0 || code == -1
      ensures code == -1 <==> path.None? || level == 0 || (level != 3 && !opens)
      ensures console == old(console) + if code == -1 && path.Some? && level != 0 then ["log init faol"] else []
      ensures code == -1 ==> ready == old(ready) && streaming == old(streaming) && View() == old(View())
      ensures code == 0 ==> ready && this.path == Stored(path.value) && this.level == (if level > 0 then level else 0)
                            && this.size == (if size > 0 then size else 0)
      ensures code == 0 && level == 3 ==> files == old(files) && this.num == 0
      ensures code == 0 && level != 3 ==>
                && this.num == num && fp == (if num != 0 then Snprintf(PATH_SIZE, path.value) else View().New())
                && files == Opened(old(files), fp) && View().Open()
    {
      if path.None? || level == 0 {
        return -1;
      }
      var theNum, theFp := 0, "";
      if level != 3 {
        theNum := num;
        theFp := Snprintf(PATH_SIZE, if num != 0 then path.value else path.value + ".new");
        StoredNames(path.value, ".new");
        if !opens {
          console := console + ["log init faol"];
          return -1;
        }
        files := Opened(files, theFp);
      }
      this.num, this.fp, this.path := theNum, theFp, Stored(path.value);
      this.size := if size > 0 then size else 0;
      this.level := if level > 0 then level else 0;
      ready, streaming := true, level != 3;
      return 0;
    }

    /** `text` is the whole formatted message, or None when formatting fails. */
    method Debug(text: Option<string>)
      requires Valid()
      modifies this`files, this`console
      ensures Valid()
      ensures !ready || text.None? ==> View() == old(View()) && console == old(console)
      ensures ready && text.Some? ==> View() == Logged(old(View()), text.value)
      ensures ready && text.Some? && '\0' !in text.value && text.value != "" && level != 0 && level != 3 ==>
                Content(files, fp) == Content(old(files), fp)
                                      + (if |text.value| < 1024 then text.value else text.value[..1023]) + "\n"
      ensures ready && text.Some? ==>
                console == old(console)
                           + if (level == 2 || level == 3) && text.value != ""
                             then [CString(Snprintf(BUF_SIZE, text.value))] else []
    {
      if !ready || level == 0 {
        return;
      }
      if text.None? || |text.value| <= 0 {
        return;
      }
      AppendsLine(View(), text.value);
      var message := CString(Snprintf(BUF_SIZE, text.value));
      if level == 3 {
        console := console + [message];
        return;
      }
      if level == 2 {
        console := console + [message];
      }
      ghost var before := files;
      files := Appended(files, fp, message);
      files := Appended(files, fp, "\n");
      assert Content(before, fp) + message + "\n" == Content(before, fp) + (message + "\n");
      assert files == Appended(before, fp, message + "\n");
    }

    /** `reopens` tells whether the fopen of a rotation succeeds. When it fails the stream is
      * lost: the old file is closed and renamed, no new one exists, and the object is no
      * longer fit for further calls. */
    method CheckSize(now: int, reopens: bool)
      requires Valid()
      modifies this`files, this`fp, this`streaming
      ensures var s := old(View());
              if !ready || !s.Full() then Valid() && View() == s
              else if reopens then Valid() && View() == Checked(s, now)
              else !streaming && files == Closed(s)
      ensures |Content(old(files), old(fp))| <= old(size) ==> Valid() && View() == old(View())
    {
      if !ready || level == 3 || path == "" {
        return;
      }
      if |files[fp]| > size {
        var newPath: string;
        if num != 0 {
          newPath := Snprintf(PATH_SIZE, path + Decimal(now));
        } else {
          var bakPath := Snprintf(PATH_SIZE, path + ".bak");
          newPath := Snprintf(PATH_SIZE, path + ".new");
          files := Removed(files, bakPath);
          files := Renamed(files, newPath, bakPath);
        }
        streaming := reopens;
        if reopens {
          files := Opened(files, newPath);
          fp := newPath;
        }
      }
    }
  }

  // ---- runs ----

  datatype Op = Debug(text: string) | CheckSize(now: int)

  function Step(s: State, op: Op): State {
    match op
    case Debug(text) => Logged(s, text)
    case CheckSize(now) => Checked(s, now)
  }

  function Run(s: State, ops: seq<Op>): State {
    if ops == [] then s else Step(Run(s, ops[..|ops| - 1]), ops[|ops| - 1])
  }

  /** Everything written to files during a run. */
  function History(s: State, ops: seq<Op>): Bytes {
    if ops == [] then []
    else
      var n := |ops| - 1;
      History(s, ops[..n]) + if ops[n].Debug? then Written(Run(s, ops[..n]), ops[n].text) else []
  }

  /** The settings never change, and the stream stays open. */
  lemma {:induction false} Settings(s: State, ops: seq<Op>)
    ensures var r := Run(s, ops);
            r.path == s.path && r.size == s.size && r.level == s.level && r.num == s.num
    ensures s.Open() ==> Run(s, ops).Open()
    ensures s.num == 0 && s.fp == s.New() ==> Run(s, ops).fp == s.New()
  {
    if ops == [] {
    } else {
      Settings(s, ops[..|ops| - 1]);
    }
  }

  lemma RunStep(s: State, ops: seq<Op>, i: nat)
    requires i < |ops|
    ensures Run(s, ops[..i + 1]) == Step(Run(s, ops[..i]), ops[i])
  {
    assert ops[..i + 1][..i] == ops[..i];
  }

  /** A program that initializes the logger and then makes the given calls, with every reopening
    * succeeding, is a run. */
  method Session(log: Logger, path: string, size: int, level: int, num: int, opens: bool, ops: seq<Op>)
    returns (code: int, ghost start: State)
    requires log.Valid()
    modifies log
    ensures log.Valid()
    ensures code == 0 ==> log.View() == Run(start, ops)
    ensures code == 0 ==> start.path == Stored(path) && start.size == (if size > 0 then size else 0)
                          && start.level == if level > 0 then level else 0
    ensures code == 0 ==> forall p :: Content(start.files, p) == Content(old(log.files), p)
    ensures code == 0 && level != 3 && num == 0 ==> TwoFiles(start)
    ensures code == 0 && level != 3 && num != 0 ==> start.Open() && start.num == num
  {
    code := log.Init(Some(path), size, level, num, opens);
    start := log.View();
    if code != 0 {
      return;
    }
    var i := 0;
    while i < |ops|
      invariant i <= |ops| && log.Valid() && log.ready
      invariant log.View() == Run(start, ops[..i])
    {
      RunStep(start, ops, i);
      match ops[i] {
        case Debug(text) => log.Debug(Some(text));
        case CheckSize(now) => log.CheckSize(now, true);
      }
      i := i + 1;
    }
    assert ops[..i] == ops;
  }

  // ---- rotation between .new and .bak ----

  /** A logger with num = 0 as log_init leaves it. */
  ghost predicate TwoFiles(s: State) {
    s.Open() && s.num == 0 && s.fp == s.New()
  }

  /** What a run discards: at each rotation, the backup of that moment. */
  ghost function Discarded(s: State, ops: seq<Op>): Bytes {
    if ops == [] then []
    else
      var n := |ops| - 1;
      var r := Run(s, ops[..n]);
      Discarded(s, ops[..n]) + if ops[n].CheckSize? && r.Full() then Content(r.files, r.Bak()) else []
  }

  /** The files a rotation names differ exactly when the suffixes survive truncation. */
  lemma NamesDifferIff(s: State)
    ensures s.New() != s.Bak() <==> |s.path| <= PATH_SIZE - 3
  {
    var n, b := s.path + ".new", s.path + ".bak";
    if |s.path| <= PATH_SIZE - 3 {
      assert s.New()[|s.path| + 1] == 'n' && s.Bak()[|s.path| + 1] == 'b';
    } else {
      assert n[..PATH_SIZE - 1] == b[..PATH_SIZE - 1];
    }
  }

  /** Over every run, the starting contents followed by every line written is what was
    * discarded, then the backup, then the current file; no other file changes. */
  lemma {:induction false} NothingElseIsLost(s: State, ops: seq<Op>)
    requires TwoFiles(s) && |s.path| <= PATH_SIZE - 3
    ensures var r := Run(s, ops);
            Content(s.files, s.Bak()) + Content(s.files, s.New()) + History(s, ops)
            == Discarded(s, ops) + Content(r.files, s.Bak()) + Content(r.files, s.New())
    ensures forall p | p != s.New() && p != s.Bak() :: Content(Run(s, ops).files, p) == Content(s.files, p)
  {
    if ops == [] {
    } else {
      var n := |ops| - 1;
      var r := Run(s, ops[..n]);
      NothingElseIsLost(s, ops[..n]);
      Settings(s, ops[..n]);
      StepKeeps(r, ops[n]);
      var r' := Run(s, ops);
      Conserve(Content(s.files, s.Bak()) + Content(s.files, s.New()), History(s, ops[..n]),
               if ops[n].Debug? then Written(r, ops[n].text) else [],
               Discarded(s, ops[..n]), Content(r.files, s.Bak()), Content(r.files, s.New()),
               if ops[n].CheckSize? && r.Full() then Content(r.files, r.Bak()) else [],
               Content(r'.files, s.Bak()), Content(r'.files, s.New()));
    }
  }

  lemma Conserve(start: Bytes, h: Bytes, w: Bytes, d: Bytes, b: Bytes, n: Bytes, x: Bytes, b': Bytes, n': Bytes)
    requires start + h == d + b + n
    requires b + n + w == x + b' + n'
    ensures start + (h + w) == d + x + b' + n'
  {
    assert start + (h + w) == start + h + w;
    assert d + b + n + w == d + (b + n + w);
    assert d + (x + b' + n') == d + x + b' + n';
  }

  lemma StepKeeps(r: State, op: Op)
    requires TwoFiles(r) && |r.path| <= PATH_SIZE - 3
    ensures forall p | p != r.New() && p != r.Bak() :: Content(Step(r, op).files, p) == Content(r.files, p)
    ensures var r' := Step(r, op);
            Content(r.files, r.Bak()) + Content(r.files, r.New())
            + (if op.Debug? then Written(r, op.text) else [])
            == (if op.CheckSize? && r.Full() then Content(r.files, r.Bak()) else [])
               + Content(r'.files, r.Bak()) + Content(r'.files, r.New())
  {
    NamesDifferIff(r);
    match op
    case Debug(text) =>
      var b, n := Content(r.files, r.Bak()), Content(r.files, r.New());
      assert b + n + Written(r, text) == [] + b + (n + Written(r, text));
    case CheckSize(now) =>
      if r.Full() {
        RotatedContents(r, now);
      }
  }

  lemma RotatedContents(r: State, now: int)
    requires TwoFiles(r) && r.New() != r.Bak() && r.Full()
    ensures Content(Checked(r, now).files, r.New()) == []
    ensures Content(Checked(r, now).files, r.Bak()) == Content(r.files, r.New())
    ensures forall p | p != r.New() && p != r.Bak() :: Content(Checked(r, now).files, p) == Content(r.files, p)
  {
  }

  ghost predicate IsSuffix(part: Bytes, all: Bytes) {
    |part| <= |all| && part == all[|all| - |part|..]
  }

  /** What the two files hold is always a suffix of everything they ever held. */
  lemma RetainedIsSuffix(s: State, ops: seq<Op>)
    requires TwoFiles(s) && |s.path| <= PATH_SIZE - 3
    ensures var r := Run(s, ops);
            IsSuffix(Content(r.files, s.Bak()) + Content(r.files, s.New()),
                     Content(s.files, s.Bak()) + Content(s.files, s.New()) + History(s, ops))
  {
    NothingElseIsLost(s, ops);
    var r := Run(s, ops);
    SuffixAfter(Discarded(s, ops), Content(r.files, s.Bak()), Content(r.files, s.New()));
  }

  lemma SuffixAfter(d: Bytes, b: Bytes, n: Bytes)
    ensures IsSuffix(b + n, d + b + n)
  {
  }

  /** A rotation keeps the full log, as the backup, exactly when the path is short enough
    * for the two names to differ; otherwise removing the backup removes the log itself. */
  lemma RotationKeepsLogIff(s: State, now: int)
    requires TwoFiles(s) && s.Full()
    ensures var r := Checked(s, now);
            Content(r.files, s.Bak()) + Content(r.files, s.New()) == Content(s.files, s.New())
            <==> |s.path| <= PATH_SIZE - 3
  {
    NamesDifferIff(s);
    var r := Checked(s, now);
    if s.New() == s.Bak() {
      assert Content(r.files, s.New()) == [];
    } else {
      assert Content(r.files, s.Bak()) == Content(s.files, s.New()) && Content(r.files, s.New()) == [];
    }
  }

  /** The same holds for a rotation that cannot reopen. */
  lemma FailedReopenKeepsLog(s: State)
    requires TwoFiles(s) && s.Full()
    ensures s.New() !in Closed(s)
    ensures Content(Closed(s), s.Bak()) == Content(s.files, s.New()) <==> |s.path| <= PATH_SIZE - 3
  {
    NamesDifferIff(s);
  }

  // ---- how large the files get ----

  /** The file-writing calls since the last log_checksize, the run itself starting with c of them. */
  ghost function SinceCheck(s: State, ops: seq<Op>, c: nat): nat {
    if ops == [] then c
    else
      var n := |ops| - 1;
      match ops[n]
      case CheckSize(_) => 0
      case Debug(text) =>
        SinceCheck(s, ops[..n], c) + if Written(Run(s, ops[..n]), text) != [] then 1 else 0
  }

  /** At no point of the run have more than k writing calls gone unchecked. */
  ghost predicate Paced(s: State, ops: seq<Op>, k: nat, c: nat) {
    SinceCheck(s, ops, c) <= k && (ops != [] ==> Paced(s, ops[..|ops| - 1], k, c))
  }

  lemma {:induction false} FilesStaySmall(s: State, ops: seq<Op>, k: nat, c: nat)
    requires TwoFiles(s) && s.path != "" && Paced(s, ops, k, c)
    requires |Content(s.files, s.New())| <= s.size + c * BUF_SIZE
    requires |Content(s.files, s.Bak())| <= s.size + k * BUF_SIZE
    ensures var r := Run(s, ops);
            && |Content(r.files, s.New())| <= s.size + SinceCheck(s, ops, c) * BUF_SIZE <= s.size + k * BUF_SIZE
            && |Content(r.files, s.Bak())| <= s.size + k * BUF_SIZE
            && (ops != [] && ops[|ops| - 1].CheckSize? ==> |Content(r.files, s.New())| <= s.size)
  {
    if ops == [] {
    } else {
      var n := |ops| - 1;
      FilesStaySmall(s, ops[..n], k, c);
      Settings(s, ops[..n]);
      StepStaysSmall(Run(s, ops[..n]), ops[n], k, SinceCheck(s, ops[..n], c));
    }
  }

  lemma StepStaysSmall(r: State, op: Op, k: nat, c: nat)
    requires TwoFiles(r) && r.path != "" && c <= k
    requires |Content(r.files, r.New())| <= r.size + c * BUF_SIZE
    requires |Content(r.files, r.Bak())| <= r.size + k * BUF_SIZE
    requires op.Debug? && Written(r, op.text) != [] ==> c < k
    ensures op.Debug? ==>
              |Content(Step(r, op).files, r.New())|
              <= r.size + (c + if Written(r, op.text) != [] then 1 else 0) * BUF_SIZE
    ensures op.CheckSize? ==> |Content(Step(r, op).files, r.New())| <= r.size
    ensures |Content(Step(r, op).files, r.Bak())| <= r.size + k * BUF_SIZE
  {
  }

  ghost predicate BothSmall(s: State, r: State, k: nat) {
    && |Content(r.files, s.New())| <= s.size + k * BUF_SIZE
    && |Content(r.files, s.Bak())| <= s.size + k * BUF_SIZE
  }

  ghost predicate StaysSmall(s: State, k: nat) {
    forall ops | Paced(s, ops, k, 0) :: BothSmall(s, Run(s, ops), k)
  }

  /** The bound holds over all paced runs exactly when the path is not empty, or nothing is
    * logged at all: with an empty path log_checksize never rotates. */
  lemma StaysSmallIff(s: State, k: nat)
    requires TwoFiles(s) && |Content(s.files, s.New())| <= s.size
    requires |Content(s.files, s.Bak())| <= s.size + k * BUF_SIZE
    ensures StaysSmall(s, k) <==> k == 0 || s.path != "" || s.level == 0
  {
    if s.path != "" {
      forall ops | Paced(s, ops, k, 0)
        ensures BothSmall(s, Run(s, ops), k)
      {
        FilesStaySmall(s, ops, k, 0);
      }
    } else if k == 0 || s.level == 0 {
      forall ops | Paced(s, ops, k, 0)
        ensures BothSmall(s, Run(s, ops), k)
      {
        SilentRun(s, ops, k);
      }
    } else {
      var m := s.size + k * BUF_SIZE + 1;
      UncheckedGrowth(s, m, k);
      assert !BothSmall(s, Run(s, Alternating(m)), k);
    }
  }

  lemma {:induction false} SilentRun(s: State, ops: seq<Op>, k: nat)
    requires s.path == "" && (k == 0 || s.level == 0) && Paced(s, ops, k, 0)
    ensures Run(s, ops) == s
  {
    if ops == [] {
    } else {
      SilentRun(s, ops[..|ops| - 1], k);
    }
  }

  /** m times: log one byte, then check the size. */
  ghost function Alternating(m: nat): seq<Op> {
    if m == 0 then [] else Alternating(m - 1) + [Debug("x")] + [CheckSize(0)]
  }

  /** A paced run, just checked, that leaves at least m bytes in the log. */
  ghost predicate Grown(s: State, ops: seq<Op>, k: nat, m: nat) {
    && Paced(s, ops, k, 0) && SinceCheck(s, ops, 0) == 0
    && |Content(Run(s, ops).files, s.New())| >= m
  }

  lemma {:induction false} UncheckedGrowth(s: State, m: nat, k: nat)
    requires TwoFiles(s) && s.path == "" && s.Writing() && k >= 1
    ensures Grown(s, Alternating(m), k, m)
  {
    if m == 0 {
      assert Grown(s, [], k, 0);
    } else {
      UncheckedGrowth(s, m - 1, k);
      UncheckedRound(s, Alternating(m - 1), k, m - 1);
    }
  }

  lemma UncheckedRound(s: State, before: seq<Op>, k: nat, m: nat)
    requires TwoFiles(s) && s.path == "" && s.Writing() && k >= 1 && Grown(s, before, k, m)
    ensures Grown(s, before + [Debug("x")] + [CheckSize(0)], k, m + 1)
  {
    Settings(s, before);
    AppendedOp(s, before, Debug("x"), k);
    AppendedOp(s, before + [Debug("x")], CheckSize(0), k);
    OneByteLogged(Run(s, before));
  }

  lemma OneByteLogged(r: State)
    requires TwoFiles(r) && r.path == "" && r.Writing()
    ensures var r' := Step(Step(r, Debug("x")), CheckSize(0));
            |Content(r'.files, r.New())| > |Content(r.files, r.New())|
  {
    assert |Line("x")| > 0;
  }

  lemma AppendedOp(s: State, ops: seq<Op>, op: Op, k: nat)
    ensures Run(s, ops + [op]) == Step(Run(s, ops), op)
    ensures SinceCheck(s, ops + [op], 0) <= if op.Debug? then SinceCheck(s, ops, 0) + 1 else 0
    ensures Paced(s, ops, k, 0) && SinceCheck(s, ops + [op], 0) <= k ==> Paced(s, ops + [op], k, 0)
  {
    assert (ops + [op])[..|ops + [op]| - 1] == ops;
  }

  // ---- rotation through dated names ----

  /** What one operation adds to the file p. */
  ghost function Adds(r: State, op: Op, p: string): Bytes {
    if op.Debug? && r.fp == p then Written(r, op.text) else []
  }

  /** What a run writes while p is the current file. */
  ghost function RoutedTo(s: State, ops: seq<Op>, p: string): Bytes {
    if ops == [] then []
    else
      var n := |ops| - 1;
      RoutedTo(s, ops[..n], p) + Adds(Run(s, ops[..n]), ops[n], p)
  }

  /** With num != 0 nothing is ever lost, whatever the clock reads: every file keeps its
    * contents and grows by exactly the lines written while it was current. */
  lemma {:induction false} DatedFilesOnlyGrow(s: State, ops: seq<Op>, p: string)
    requires s.Open() && s.num != 0
    ensures p in s.files ==> p in Run(s, ops).files
    ensures Content(Run(s, ops).files, p) == Content(s.files, p) + RoutedTo(s, ops, p)
  {
    if ops == [] {
      assert Content(s.files, p) + [] == Content(s.files, p);
    } else {
      var n := |ops| - 1;
      var r := Run(s, ops[..n]);
      DatedFilesOnlyGrow(s, ops[..n], p);
      Settings(s, ops[..n]);
      DatedStep(r, ops[n], p);
      Concat(Content(s.files, p), RoutedTo(s, ops[..n], p), Adds(r, ops[n], p));
    }
  }

  lemma Concat(a: Bytes, b: Bytes, c: Bytes)
    ensures a + b + c == a + (b + c)
  {
  }

  lemma DatedStep(r: State, op: Op, p: string)
    requires r.Open() && r.num != 0
    ensures p in r.files ==> p in Step(r, op).files
    ensures Content(Step(r, op).files, p) == Content(r.files, p) + Adds(r, op, p)
  {
    assert Content(r.files, p) + [] == Content(r.files, p);
  }

  /** The bytes in all files together grow by exactly the bytes logged. */
  lemma {:induction false} DatedTotal(s: State, ops: seq<Op>)
    requires s.Open() && s.num != 0
    ensures TotalBytes(Run(s, ops).files) == TotalBytes(s.files) + |History(s, ops)|
  {
    if ops == [] {
    } else {
      var n := |ops| - 1;
      DatedTotal(s, ops[..n]);
      Settings(s, ops[..n]);
      DatedStepTotal(Run(s, ops[..n]), ops[n]);
    }
  }

  lemma DatedStepTotal(r: State, op: Op)
    requires r.Open() && r.num != 0
    ensures TotalBytes(Step(r, op).files)
            == TotalBytes(r.files) + if op.Debug? then |Written(r, op.text)| else 0
  {
    match op
    case Debug(text) => TotalAfterAppend(r.files, r.fp, Written(r, text));
    case CheckSize(now) =>
      var next := Snprintf(PATH_SIZE, r.path + Decimal(now));
      TotalAfterAppend(r.files, next, []);
      assert Content(r.files, next) + [] == Content(r.files, next);
  }

  ghost function TotalBytes(files: Files): nat {
    if files == map[] then 0
    else
      var p :| p in files;
      |files[p]| + TotalBytes(files - {p})
  }

  lemma {:induction false} TotalBytesPick(files: Files, p: string)
    requires p in files
    ensures TotalBytes(files) == |files[p]| + TotalBytes(files - {p})
    decreases |files|
  {
    var q :| q in files && TotalBytes(files) == |files[q]| + TotalBytes(files - {q});
    if p != q {
      assert |files - {q}| < |files| by { assert (files - {q}).Keys == files.Keys - {q}; }
      assert |files - {p}| < |files| by { assert (files - {p}).Keys == files.Keys - {p}; }
      TotalBytesPick(files - {q}, p);
      TotalBytesPick(files - {p}, q);
      assert files - {q} - {p} == files - {p} - {q};
    }
  }

  lemma TotalAfterAppend(files: Files, p: string, data: Bytes)
    ensures TotalBytes(Appended(files, p, data)) == TotalBytes(files) + |data|
  {
    var after := Appended(files, p, data);
    TotalBytesPick(after, p);
    if p in files {
      TotalBytesPick(files, p);
      assert after - {p} == files - {p};
    } else {
      assert after - {p} == files;
    }
  }
}
