/** The rotating log file of src/logging/logging.c: one writer, no I/O failure. */
module LogRotation {

  /** <name> and <name>_1, <name>_2, ... in the log directory. */
  datatype FileName = Live | Archive(index: nat)

  type Disk = map<FileName, string>

  function Content(d: Disk, f: FileName): string {
    if f in d then d[f] else ""
  }

  /** The archives n, n - 1, ..., 1, oldest text first. */
  function Archives(d: Disk, n: nat): string {
    if n == 0 then "" else Content(d, Archive(n)) + Archives(d, n - 1)
  }

  /** Everything logged, read by descending index and then from the live file. */
  function History(d: Disk, n: nat): string {
    Archives(d, n) + Content(d, Live)
  }

  /** No archive has an index above n. */
  ghost predicate Covers(d: Disk, n: nat) {
    forall k: nat :: Archive(k) in d ==> k <= n
  }

  lemma {:induction false} CoverExists(d: Disk) returns (n: nat)
    ensures Covers(d, n)
    decreases |d|
  {
    n := 0;
    if d.Keys != {} {
      var f :| f in d.Keys;
      var rest := d - {f};
      assert rest.Keys == d.Keys - {f};
      var m := CoverExists(rest);
      n := if f.Archive? && f.index > m then f.index else m;
      forall k: nat | Archive(k) in d ensures k <= n {
        if Archive(k) != f {
          assert Archive(k) in rest;
        }
      }
    }
  }

  /** The first index, from 1, without an archive. */
  ghost predicate IsGap(d: Disk, g: nat) {
    g >= 1 && Archive(g) !in d && forall k :: 1 <= k < g ==> Archive(k) in d
  }

  lemma {:induction false} GapFrom(d: Disk, k: nat, n: nat) returns (g: nat)
    requires k >= 1 && Covers(d, n) && forall i :: 1 <= i < k ==> Archive(i) in d
    ensures IsGap(d, g)
    decreases n + 1 - k
  {
    if Archive(k) in d {
      g := GapFrom(d, k + 1, n);
    } else {
      g := k;
    }
  }

  ghost function Gap(d: Disk): (g: nat)
    ensures IsGap(d, g)
  {
    assert exists g :: IsGap(d, g) by {
      var n := CoverExists(d);
      var g := GapFrom(d, 1, n);
    }
    var g :| IsGap(d, g);
    g
  }

  /** The archives n .. g-1 moved up by one. */
  ghost function Shifted(d: Disk, g: nat, n: nat): Disk
    requires IsGap(d, g) && 1 <= n <= g
  {
    map f | f in (d.Keys + {Archive(g)}) - {Archive(n)} ::
      if f.Archive? && n < f.index <= g then d[Archive(f.index - 1)] else d[f]
  }

  /** Every archive below the gap moved up by one, and the live file made archive 1. */
  ghost function Rotated(d: Disk): Disk
    requires Live in d
  {
    (Shifted(d, Gap(d), 1) - {Live})[Archive(1) := d[Live]]
  }

  lemma RotatedAt(d: Disk, n: nat)
    requires Live in d && Archive(n) in d && n >= 1
    ensures n < Gap(d) ==> Archive(n + 1) in Rotated(d) && Rotated(d)[Archive(n + 1)] == d[Archive(n)]
    ensures n > Gap(d) ==> Archive(n) in Rotated(d) && Rotated(d)[Archive(n)] == d[Archive(n)]
  {
    var s := Shifted(d, Gap(d), 1);
    if n < Gap(d) {
      assert Archive(n + 1) in s;
    }
  }

  /** Counting from 1, up to the first index that is free: those archives move up by one, the live file takes
      index 1, and the archives behind stay. */
  lemma RotationByIndex(d: Disk, g: nat, k: nat)
    requires Live in d && g >= 1 && Archive(g) !in d && forall i :: 1 <= i < g ==> Archive(i) in d
    ensures Live !in Rotated(d)
    ensures Archive(1) in Rotated(d) && Rotated(d)[Archive(1)] == d[Live]
    ensures 1 <= k < g ==> Archive(k + 1) in Rotated(d) && Rotated(d)[Archive(k + 1)] == d[Archive(k)]
    ensures k > g ==> (Archive(k) in Rotated(d) <==> Archive(k) in d)
    ensures k > g && Archive(k) in d ==> Rotated(d)[Archive(k)] == d[Archive(k)]
  {
    GapUnique(d, g, Gap(d));
    var s := Shifted(d, g, 1);
    assert 1 <= k < g ==> Archive(k + 1) in s.Keys;
  }

  lemma AboveGapKept(d: Disk, n: nat)
    requires Live in d && n > Gap(d)
    ensures Content(Rotated(d), Archive(n)) == Content(d, Archive(n))
  {
  }

  lemma {:induction false} ArchivesBelowGap(d: Disk, n: nat)
    requires Live in d && 1 <= n <= Gap(d)
    ensures Archives(Rotated(d), n) == Archives(d, n - 1) + d[Live]
  {
    if n == 1 {
      assert Archives(Rotated(d), 1) == d[Live] + "";
    } else {
      ArchivesBelowGap(d, n - 1);
      var c := d[Archive(n - 1)];
      RotatedAt(d, n - 1);
      hide Rotated;
      assert Content(Rotated(d), Archive(n)) == c == Content(d, Archive(n - 1));
      assert c + (Archives(d, n - 2) + d[Live]) == (c + Archives(d, n - 2)) + d[Live];
    }
  }

  lemma {:induction false} ArchivesAboveGap(d: Disk, n: nat)
    requires Live in d && Gap(d) <= n
    ensures Archives(Rotated(d), n) == Archives(d, n) + d[Live]
  {
    if n == Gap(d) {
      ArchivesBelowGap(d, n);
      assert Archives(d, n) == "" + Archives(d, n - 1);
    } else {
      ArchivesAboveGap(d, n - 1);
      var c := Content(d, Archive(n));
      AboveGapKept(d, n);
      hide Rotated;
      assert Content(Rotated(d), Archive(n)) == c;
      assert c + (Archives(d, n - 1) + d[Live]) == (c + Archives(d, n - 1)) + d[Live];
    }
  }

  /** Rotation loses and reorders nothing. */
  lemma RotationKeepsHistory(d: Disk, n: nat)
    requires Live in d && Covers(d, n)
    ensures Live !in Rotated(d) && Covers(Rotated(d), n + 1)
    ensures History(Rotated(d), n + 1) == History(d, n + 1)
  {
    var g := Gap(d);
    assert g > 1 ==> Archive(g - 1) in d;
    ArchivesAboveGap(d, n + 1);
  }

  /** Rotation keeps one file per file: no two are merged and none disappears. */
  lemma RotationKeepsCount(d: Disk)
    requires Live in d
    ensures |Rotated(d)| == |d|
  {
    var s := Shifted(d, Gap(d), 1);
    assert s.Keys == (d.Keys + {Archive(Gap(d))}) - {Archive(1)};
    assert Rotated(d).Keys == (d.Keys - {Live}) + {Archive(Gap(d))};
  }

  // ----- what a write amounts to -----

  datatype Log = Log(disk: Disk, reopen: bool)

  predicate MustRotate(log: Log, max: nat, line: string) {
    |Content(log.disk, Live) + line| > max && ((max > 0 && line != "") || log.reopen)
  }

  ghost function Written(log: Log, max: nat, line: string): Log {
    var d := log.disk[Live := Content(log.disk, Live) + line];
    Log(if MustRotate(log, max, line) then Rotated(d)[Live := ""] else d, false)
  }

  datatype Event = Line(text: string) | ReopenRequest

  ghost function Handle(log: Log, max: nat, e: Event): Log {
    match e
    case Line(text) => Written(log, max, text)
    case ReopenRequest => log.(reopen := true)
  }

  ghost function Run(log: Log, max: nat, es: seq<Event>): Log
    decreases es
  {
    if es == [] then log else Run(Handle(log, max, es[0]), max, es[1..])
  }

  function Lines(es: seq<Event>): string {
    if es == [] then "" else (if es[0].Line? then es[0].text else "") + Lines(es[1..])
  }

  lemma {:induction false} ArchivesSame(d: Disk, d': Disk, n: nat)
    requires forall k :: Content(d, Archive(k)) == Content(d', Archive(k))
    ensures Archives(d, n) == Archives(d', n)
  {
    if n > 0 {
      ArchivesSame(d, d', n - 1);
    }
  }

  lemma {:induction false} WriteAppendsHistory(log: Log, max: nat, line: string, n: nat)
    requires Covers(log.disk, n)
    ensures Covers(Written(log, max, line).disk, n + 1)
    ensures History(Written(log, max, line).disk, n + 1) == History(log.disk, n + 1) + line
  {
    hide Rotated;
    var before := Content(log.disk, Live);
    var d := log.disk[Live := before + line];
    ArchivesSame(log.disk, d, n + 1);
    var a := Archives(log.disk, n + 1);
    assert a + (before + line) == (a + before) + line;
    if MustRotate(log, max, line) {
      RotationKeepsHistory(d, n);
      var r := Rotated(d);
      ArchivesSame(r, r[Live := ""], n + 1);
    }
  }

  /** Archives above the highest index in use are empty. */
  lemma {:induction false} HistoryStable(d: Disk, n: nat, m: nat)
    requires Covers(d, n) && n <= m
    ensures History(d, m) == History(d, n)
  {
    if n < m {
      HistoryStable(d, n, m - 1);
      assert Archive(m) !in d;
      assert Archives(d, m) == "" + Archives(d, m - 1);
    }
  }

  /** After any run, the files together hold what they held before followed by every line written, in order. */
  lemma {:induction false} RunKeepsHistory(log: Log, max: nat, es: seq<Event>, n: nat)
    requires Covers(log.disk, n)
    ensures var end := Run(log, max, es).disk;
            Covers(end, n + |es|) && History(end, n + |es|) == History(log.disk, n) + Lines(es)
    decreases es
  {
    hide Written, History;
    if es == [] {
      assert History(log.disk, n) + "" == History(log.disk, n);
    } else {
      var next := Handle(log, max, es[0]);
      var text := if es[0].Line? then es[0].text else "";
      HistoryStable(log.disk, n, n + 1);
      var h := History(log.disk, n);
      if es[0].Line? {
        WriteAppendsHistory(log, max, text, n);
      } else {
        assert h + "" == h;
      }
      assert Covers(next.disk, n + 1) && History(next.disk, n + 1) == h + text;
      RunKeepsHistory(next, max, es[1..], n + 1);
      assert (h + text) + Lines(es[1..]) == h + (text + Lines(es[1..]));
    }
  }

  /** With a limit, the live file never stays above it once something has been written. */
  lemma WrittenFits(log: Log, max: nat, line: string)
    ensures Live in Written(log, max, line).disk
    ensures (max > 0 && line != "") || log.reopen ==> |Written(log, max, line).disk[Live]| <= max
  {
  }

  /** A line that still fits, or finds the limit off, without a request: the live file grows and nothing else changes.
      A line that goes beyond the limit: the whole text becomes archive 1 and the live file starts anew. */
  lemma GrowsOrRotates(log: Log, max: nat, line: string)
    requires Live in log.disk && !log.reopen
    ensures max == 0 || |log.disk[Live]| + |line| <= max ==>
              Written(log, max, line) == Log(log.disk[Live := log.disk[Live] + line], false)
    ensures max > 0 && line != "" && |log.disk[Live]| + |line| > max ==>
              var d := Written(log, max, line).disk;
              && Archive(1) in d && d[Archive(1)] == log.disk[Live] + line
              && Live in d && d[Live] == ""
  {
  }

  /** With a request the same holds for every line, the empty one too, and the request is then done with. */
  lemma ReopenGrowsOrRotates(log: Log, max: nat, line: string)
    requires Live in log.disk && log.reopen
    ensures !Written(log, max, line).reopen
    ensures |log.disk[Live]| + |line| <= max ==>
              Written(log, max, line).disk == log.disk[Live := log.disk[Live] + line]
    ensures |log.disk[Live]| + |line| > max ==>
              var d := Written(log, max, line).disk;
              && Archive(1) in d && d[Archive(1)] == log.disk[Live] + line
              && Live in d && d[Live] == ""
  {
  }

  // ----- a limit of 0, which the header calls "no rotation" -----

  /** The write at i + 1 directly follows a reopen request, and does not leave the live file empty. */
  predicate RequestMeetsText(live: string, es: seq<Event>, i: nat) {
    i + 1 < |es| && es[i].ReopenRequest? && es[i + 1].Line? && live + Lines(es[..i + 2]) != ""
  }

  ghost predicate RequestsOnEmpty(live: string, es: seq<Event>) {
    forall i: nat :: !RequestMeetsText(live, es, i)
  }

  /** A request is pending and the next write is one that it rotates on. */
  predicate Pending(log: Log, es: seq<Event>) {
    log.reopen && es != [] && es[0].Line? && Content(log.disk, Live) + es[0].text != ""
  }

  lemma LinesFront(e: Event, es: seq<Event>, n: nat)
    requires n <= |es|
    ensures Lines(([e] + es)[..n + 1]) == (if e.Line? then e.text else "") + Lines(es[..n])
  {
    assert ([e] + es)[..n + 1][1..] == es[..n];
  }

  lemma MeetsShift(live: string, e: Event, es: seq<Event>, i: nat)
    ensures RequestMeetsText(live, [e] + es, i + 1)
       <==> RequestMeetsText(live + (if e.Line? then e.text else ""), es, i)
  {
    hide Lines;
    if i + 1 < |es| {
      LinesFront(e, es, i + 2);
      var text, lines := if e.Line? then e.text else "", Lines(es[..i + 2]);
      assert live + (text + lines) == (live + text) + lines;
      assert ([e] + es)[i + 1] == es[i] && ([e] + es)[i + 2] == es[i + 1];
    }
  }

  lemma MeetsFirst(live: string, e: Event, es: seq<Event>)
    ensures RequestMeetsText(live, [e] + es, 0)
       <==> e.ReopenRequest? && es != [] && es[0].Line? && live + es[0].text != ""
  {
    if es != [] {
      LinesFront(e, es, 1);
      assert es[..1] == [es[0]] && [es[0]][1..] == [];
      assert es[0].Line? ==> Lines(es[..1]) == es[0].text + "" == es[0].text;
      assert ([e] + es)[1] == es[0];
      assert e.ReopenRequest? && es[0].Line? ==> "" + es[0].text == es[0].text == Lines(([e] + es)[..2]);
    }
  }

  lemma RequestsOnEmptyCons(live: string, e: Event, es: seq<Event>)
    ensures RequestsOnEmpty(live, [e] + es)
       <==> && RequestsOnEmpty(live + (if e.Line? then e.text else ""), es)
            && (e.ReopenRequest? && es != [] && es[0].Line? ==> live + es[0].text == "")
  {
    hide RequestMeetsText;
    var live' := live + if e.Line? then e.text else "";
    MeetsFirst(live, e, es);
    if !RequestsOnEmpty(live, [e] + es) {
      var i: nat :| RequestMeetsText(live, [e] + es, i);
      if i > 0 {
        MeetsShift(live, e, es, i - 1);
      }
    }
    if !RequestsOnEmpty(live', es) {
      var i: nat :| RequestMeetsText(live', es, i);
      MeetsShift(live, e, es, i);
    }
  }

  /** Files are never lost, and every rotation leaves one more. */
  lemma {:induction false} RunKeepsFiles(log: Log, max: nat, es: seq<Event>)
    requires Live in log.disk
    ensures |Run(log, max, es).disk| >= |log.disk|
    decreases es
  {
    hide Rotated;
    if es != [] {
      WrittenFiles(log, max, es[0]);
      RunKeepsFiles(Handle(log, max, es[0]), max, es[1..]);
    }
  }

  lemma WrittenFiles(log: Log, max: nat, e: Event)
    requires Live in log.disk
    ensures var next := Handle(log, max, e);
            Live in next.disk && |next.disk| == |log.disk| + if e.Line? && MustRotate(log, max, e.text) then 1 else 0
  {
    if e.Line? {
      var d := log.disk[Live := log.disk[Live] + e.text];
      assert d.Keys == log.disk.Keys && |d| == |d.Keys| == |log.disk|;
      RotationKeepsCount(d);
      if MustRotate(log, max, e.text) {
        RotatedHasNoLive(d);
        var r := Rotated(d);
        assert r[Live := ""].Keys == r.Keys + {Live};
        assert |r[Live := ""]| == |r[Live := ""].Keys| && |r| == |r.Keys|;
      }
    }
  }

  lemma NothingRequested(live: string)
    ensures RequestsOnEmpty(live, [])
  {
  }

  lemma {:induction false} RunAtLimitZero(log: Log, es: seq<Event>)
    requires Live in log.disk
    ensures Run(log, 0, es).disk == log.disk[Live := log.disk[Live] + Lines(es)]
       <==> RequestsOnEmpty(log.disk[Live], es) && !Pending(log, es)
    decreases es
  {
    hide Rotated, RequestsOnEmpty;
    if es == [] {
      assert log.disk[Live] + "" == log.disk[Live];
      assert log.disk[Live := log.disk[Live]] == log.disk;
      NothingRequested(log.disk[Live]);
    } else {
      var e, rest := es[0], es[1..];
      var live, next := log.disk[Live], Handle(log, 0, e);
      assert es == [e] + rest;
      RequestsOnEmptyCons(live, e, rest);
      WrittenFiles(log, 0, e);
      RunAtLimitZero(next, rest);
      if e.Line? && MustRotate(log, 0, e.text) {
        RunKeepsFiles(next, 0, rest);
        var all := log.disk[Live := live + Lines(es)];
        assert all.Keys == log.disk.Keys && |all| == |all.Keys|;
      } else {
        var text := if e.Line? then e.text else "";
        assert Lines(es) == text + Lines(rest);
        assert (live + text) + Lines(rest) == live + (text + Lines(rest));
        assert live + "" == live;
        assert next.disk == log.disk[Live := live + text];
      }
    }
  }

  /** Without a pending request, a run under a limit of 0 leaves everything in the live file if and only if
      no write that directly follows a reopen request meets a non-empty file or makes it one. */
  lemma NoRotationAtLimitZero(log: Log, es: seq<Event>)
    requires Live in log.disk && !log.reopen
    ensures Run(log, 0, es).disk == log.disk[Live := log.disk[Live] + Lines(es)]
       <==> RequestsOnEmpty(log.disk[Live], es)
  {
    RunAtLimitZero(log, es);
  }

  // ----- the code -----

  class LogFile {
    var disk: Disk
    const maxSize: nat
    var size: nat
    var reopenRequested: bool

    /** The handle is open on the live file; the tracked size is its length when there is a limit. */
    ghost predicate Valid()
      reads this
    {
      Live in disk && (maxSize > 0 ==> size == |disk[Live]|)
    }

    /** bctbx_create_file_log_handler: opens in append mode, whatever the size. */
    constructor (max: nat, directory: Disk)
      ensures Valid() && maxSize == max && !reopenRequested
      ensures disk == directory[Live := Content(directory, Live)]
    {
      maxSize := max;
      disk := directory[Live := Content(directory, Live)];
      size := |Content(directory, Live)|;
      reopenRequested := false;
    }

    /** rename(); its precondition is that no file is overwritten. */
    method Rename(source: FileName, target: FileName)
      requires source in disk && target !in disk
      modifies this`disk
      ensures disk == (old(disk) - {source})[target := old(disk)[source]]
    {
      disk := (disk - {source})[target := disk[source]];
    }

    method TryOpen() returns (ok: bool)
      modifies this`disk, this`size
      ensures disk == old(disk)[Live := Content(old(disk), Live)]
      ensures ok <==> |disk[Live]| <= maxSize
      ensures size == if ok then |disk[Live]| else old(size)
    {
      disk := disk[Live := Content(disk, Live)];
      if |disk[Live]| > maxSize {
        return false;
      }
      size := |disk[Live]|;
      return true;
    }

    method Rotate()
      requires Live in disk
      modifies this`disk
      ensures disk == Rotated(old(disk))
    {
      ghost var d := disk;
      ghost var bound: int := CoverExists(disk);
      var n: nat := 1;
      while Archive(n) in disk
        invariant n >= 1 && forall k :: 1 <= k < n ==> Archive(k) in disk
        decreases bound + 1 - n
      {
        n := n + 1;
      }
      ghost var g := n;
      GapUnique(d, g, Gap(d));
      assert disk == Shifted(d, g, g);
      while n > 1
        invariant 1 <= n <= g && disk == Shifted(d, g, n)
      {
        ShiftStep(d, g, n);
        Rename(Archive(n - 1), Archive(n));
        n := n - 1;
      }
      Rename(Live, Archive(1));
    }

    method Open()
      modifies this`disk, this`size
      ensures var d := old(disk)[Live := Content(old(disk), Live)];
              disk == if |d[Live]| > maxSize then Rotated(d)[Live := ""] else d
      ensures size == |disk[Live]| <= maxSize
    {
      var ok := TryOpen();
      if !ok {
        ghost var d := disk;
        Rotate();
        ghost var r := disk;
        RotatedHasNoLive(d);
        ok := TryOpen();
        assert disk == r[Live := ""];
      }
    }

    /** bctbx_file_log_handler_reopen */
    method RequestReopen()
      requires Valid()
      modifies this`reopenRequested
      ensures Valid() && reopenRequested
    {
      reopenRequested := true;
    }

    /** The file part of bctbx_logv_file, for a line already formatted. */
    method Write(line: string)
      requires Valid()
      modifies this`disk, this`size, this`reopenRequested
      ensures Valid()
      ensures Log(disk, reopenRequested) == Written(old(Log(disk, reopenRequested)), maxSize, line)
      ensures maxSize > 0 && line != "" ==> size == |disk[Live]| <= maxSize
    {
      disk := disk[Live := disk[Live] + line];
      var reopen := reopenRequested;
      if maxSize > 0 && |line| > 0 {
        size := size + |line|;
        reopen := reopen || size > maxSize;
      }
      ghost var d := disk;
      assert d[Live := Content(d, Live)] == d;
      if reopen {
        size := 0;
        Open();
        reopenRequested := false;
      }
    }

    method Execute(es: seq<Event>)
      requires Valid()
      modifies this`disk, this`size, this`reopenRequested
      ensures Valid()
      ensures Log(disk, reopenRequested) == Run(old(Log(disk, reopenRequested)), maxSize, es)
    {
      hide Written;
      for i := 0 to |es|
        invariant Valid()
        invariant Run(Log(disk, reopenRequested), maxSize, es[i..]) == Run(old(Log(disk, reopenRequested)), maxSize, es)
      {
        assert es[i..][1..] == es[i + 1..];
        match es[i]
        case Line(text) => Write(text);
        case ReopenRequest => RequestReopen();
      }
    }
  }

  lemma GapUnique(d: Disk, g: nat, h: nat)
    requires IsGap(d, g) && IsGap(d, h)
    ensures g == h
  {
  }

  lemma ShiftStep(d: Disk, g: nat, n: nat)
    requires IsGap(d, g) && 1 < n <= g
    ensures var s := Shifted(d, g, n);
            && Archive(n - 1) in s && Archive(n) !in s
            && (s - {Archive(n - 1)})[Archive(n) := s[Archive(n - 1)]] == Shifted(d, g, n - 1)
  {
  }

  lemma RotatedHasNoLive(d: Disk)
    requires Live in d
    ensures Live !in Rotated(d)
  {
  }
}
