/**
 How the tracer merges the accesses to one file into block spans (batch.c, read.c).  An access
 that overlaps or touches the current span extends it; any other one reports
 the current span and starts a new one, and so does a full access string.
 */
module AccessBatch {

  // ----- Blocks and spans

  /** A run of blocks of one file. */
  datatype Span = Span(fd: int, off: int, size: nat)

  function Last(s: Span): int {
    s.off + s.size - 1
  }

  /** Block `b` of file `fd` is in the span. */
  predicate Holds(s: Span, fd: int, b: int) {
    s.fd == fd && s.off <= b <= Last(s)
  }

  /** An access of `size` bytes at byte `off`. */
  datatype Access = Access(fd: int, size: nat, off: int)

  predicate Sound(a: Access) {
    a.fd >= 0 && a.size > 0 && a.off >= 0
  }

  const BLKSIZE: nat := 4096

  /** Some byte of the access lies in block `b`. */
  ghost predicate Touches(a: Access, b: int) {
    exists byte | a.off <= byte < a.off + a.size :: byte / 4096 == b
  }

  /** The span that an access is given: its end is rounded up after it has been made inclusive. */
  function SpanOf(a: Access): (s: Span)
    requires Sound(a)
    ensures s.size > 0 && s.fd == a.fd
  {
    var first, last := a.off / BLKSIZE, (a.off + a.size - 1 + BLKSIZE - 1) / BLKSIZE;
    assert last >= first;
    Span(a.fd, first, last - first + 1)
  }

  /** One block too many, unless the last byte of the access is the first of its block. */
  predicate RoundedUp(a: Access, b: int) {
    var end := a.off + a.size - 1;
    end % BLKSIZE != 0 && b == end / BLKSIZE + 1
  }

  lemma TouchesIff(a: Access, b: int)
    requires Sound(a)
    ensures Touches(a, b) <==> a.off / BLKSIZE <= b <= (a.off + a.size - 1) / BLKSIZE
  {
    if a.off / BLKSIZE <= b <= (a.off + a.size - 1) / BLKSIZE {
      var byte := if a.off < b * BLKSIZE then b * BLKSIZE else a.off;
      assert a.off <= byte < a.off + a.size && byte / BLKSIZE == b;
    }
  }

  /** The blocks of the span of an access: those it touches, and the one rounded up to. */
  lemma SpanHoldsExactly(a: Access, b: int)
    requires Sound(a)
    ensures Holds(SpanOf(a), a.fd, b) <==> Touches(a, b) || RoundedUp(a, b)
    ensures !(Touches(a, b) && RoundedUp(a, b))
  {
    TouchesIff(a, b);
  }

  /** The span is right exactly if the last byte of the access is the first of its block. */
  lemma SpanRightIff(a: Access)
    requires Sound(a)
    ensures (forall b :: Holds(SpanOf(a), a.fd, b) <==> Touches(a, b)) <==> (a.off + a.size - 1) % BLKSIZE == 0
  {
    var next := (a.off + a.size - 1) / BLKSIZE + 1;
    SpanHoldsExactly(a, next);
    TouchesIff(a, next);
    forall b ensures Holds(SpanOf(a), a.fd, b) <==> Touches(a, b) || RoundedUp(a, b) {
      SpanHoldsExactly(a, b);
    }
  }

  /** Neither overlapping nor touching. */
  predicate Far(cur: Span, s: Span) {
    s.off > Last(cur) + 1 || Last(s) < cur.off - 1
  }

  /** The access reaches beyond one end of the current span and not beyond the other. */
  predicate Extends(cur: Span, s: Span) {
    (s.off >= cur.off && Last(s) > Last(cur)) || (s.off < cur.off && Last(s) < Last(cur))
  }

  /** By how much it does. */
  function Overhang(cur: Span, s: Span): nat
    requires Extends(cur, s)
  {
    if s.off >= cur.off then Last(s) - Last(cur) else cur.off - s.off
  }

  /** The smallest span around both. */
  function Hull(cur: Span, s: Span): Span
    requires s.size > 0
  {
    var first := if cur.off < s.off then cur.off else s.off;
    var last := if Last(cur) > Last(s) then Last(cur) else Last(s);
    assert last - first + 1 >= 0;
    Span(cur.fd, first, last - first + 1)
  }

  /** Spans that are not far apart leave no hole between them. */
  lemma HullIsUnion(cur: Span, s: Span, b: int)
    requires cur.fd == s.fd && s.size > 0 && !Far(cur, s)
    ensures Holds(Hull(cur, s), s.fd, b) <==> Holds(cur, s.fd, b) || Holds(s, s.fd, b)
  {
  }

  // ----- The access string

  const PATH_MAX: nat := 4096

  const BUFFER_SIZE: nat := PATH_MAX + PATH_MAX

  const IOSTR_BUFSIZE: nat := BUFFER_SIZE - PATH_MAX

  function Digits(n: nat): nat {
    if n < 10 then 1 else 1 + Digits(n / 10)
  }

  /** The length of the text that lists the accesses, each as its size, `@`, its offset and `;`. */
  function TextLength(log: seq<Access>): nat {
    if log == [] then 0
    else
      var a := log[|log| - 1];
      TextLength(log[..|log| - 1]) + Digits(a.size) + 1 + (if a.off >= 0 then Digits(a.off) else 0) + 1
  }

  predicate Full(log: seq<Access>) {
    TextLength(log) + 64 >= IOSTR_BUFSIZE
  }

  /** The string counts as full from 4032 characters on. */
  lemma FullFrom(log: seq<Access>)
    ensures Full(log) <==> TextLength(log) >= 4032
  {
  }

  lemma TextMore(log: seq<Access>, a: Access)
    requires a.off >= 0
    ensures TextLength(log + [a]) == TextLength(log) + TextLength([a])
    ensures TextLength([a]) == Digits(a.size) + Digits(a.off) + 2
  {
    assert (log + [a])[..|log|] == log && [a][..0] == [];
  }

  function Power10(k: nat): nat {
    if k == 0 then 1 else 10 * Power10(k - 1)
  }

  lemma {:induction false} PowerSum(j: nat, k: nat)
    ensures Power10(j + k) == Power10(j) * Power10(k)
  {
    if j > 0 {
      PowerSum(j - 1, k);
      assert Power10(j + k) == 10 * (Power10(j - 1) * Power10(k));
    }
  }

  lemma {:induction false} DigitsAtMost(n: nat, k: nat)
    requires k > 0 && n < Power10(k)
    ensures Digits(n) <= k
  {
    if n >= 10 { DigitsAtMost(n / 10, k - 1); }
  }

  /** The digits of a number are those of its place among the powers of ten. */
  lemma {:induction false} DigitsExact(n: nat)
    ensures Digits(n) > 0 && n < Power10(Digits(n))
    ensures n > 0 ==> Power10(Digits(n) - 1) <= n
  {
    if n >= 10 { DigitsExact(n / 10); }
  }

  // ----- One event

  /** The current span, the accesses in its string, and the file whose path is in the path buffer. */
  datatype Held = Held(span: Span, log: seq<Access>, named: int)

  /** A span as it is reported, with its access string and under the path of file `named`. */
  datatype Report = Report(span: Span, log: seq<Access>, named: int)

  /**
   An access, whether its path could be resolved and whether that path is to be reported; or
   the end of a file, -1 for that of the thread.
   */
  datatype Event = Io(a: Access, resolved: bool, wanted: bool) | Close(fd: int)

  const NOTHING := Held(Span(-1, -1, 0), [], -1)

  predicate Proper(h: Held) {
    h.span.fd != -1 ==> h.span.fd >= 0 && h.span.size > 0
  }

  predicate Same(h: Held, a: Access) {
    Sound(a) && h.span.fd == a.fd
  }

  /** Another file's access takes over. */
  predicate TakesOver(h: Held, e: Event) {
    e.Io? && Sound(e.a) && h.span.fd != e.a.fd && e.resolved && e.wanted
  }

  predicate Closes(h: Held, e: Event) {
    e.Close? && h.span.fd != -1 && (e.fd == -1 || e.fd == h.span.fd)
  }

  /** An access to the current file starts a new span. */
  predicate StartsAnew(h: Held, a: Access)
    requires Sound(a)
  {
    Far(h.span, SpanOf(a)) || Full(h.log)
  }

  /** How an access to the current file changes the span. */
  function Joined(h: Held, a: Access): Held
    requires Sound(a)
  {
    var cur, s := h.span, SpanOf(a);
    if Far(cur, s) then Held(s, [a], h.named)
    else if !Full(h.log) then Held(Hull(cur, s), h.log + [a], h.named)
    else if Extends(cur, s) then Held(s.(size := s.size + Overhang(cur, s)), [a], h.named)
    else Held(s, [a], h.named)
  }

  function Grown(h: Held, e: Event): Held {
    if Closes(h, e) then h.(span := h.span.(fd := -1))
    else if e.Close? then h
    else if Same(h, e.a) then Joined(h, e.a)
    else if TakesOver(h, e) then Held(SpanOf(e.a), [e.a], e.a.fd)
    else if e.resolved then h.(named := e.a.fd)
    else h
  }

  /** What is reported when the current span is given up. */
  function GivenUp(h: Held, named: int): seq<Report> {
    if h.span.fd != -1 && h.span.size != 0 then [Report(h.span, h.log, named)] else []
  }

  function Emitted(h: Held, e: Event): seq<Report> {
    if Closes(h, e) then [Report(h.span, h.log, h.named)]
    else if e.Close? then []
    else if Same(h, e.a) then if StartsAnew(h, e.a) then GivenUp(h, h.named) else []
    else if TakesOver(h, e) then GivenUp(h, e.a.fd)
    else []
  }

  // ----- What one event does to the blocks

  ghost predicate Reports(reports: seq<Report>, f: int, b: int) {
    exists k | 0 <= k < |reports| :: Holds(reports[k].span, f, b)
  }

  lemma ReportsMore(before: seq<Report>, more: seq<Report>, f: int, b: int)
    ensures Reports(before + more, f, b) <==> Reports(before, f, b) || Reports(more, f, b)
  {
    var all := before + more;
    assert forall k | 0 <= k < |before| :: all[k] == before[k];
    assert forall k | 0 <= k < |more| :: all[|before| + k] == more[k];
    assert forall k | |before| <= k < |all| :: all[k] == more[k - |before|];
  }

  /** The access is recorded: it goes on with the current file, or takes over. */
  predicate Taken(h: Held, e: Event) {
    e.Io? && (Same(h, e.a) || TakesOver(h, e))
  }

  /** The string is full when the access extends the current span at one end. */
  predicate Overshoots(h: Held, a: Access) {
    Same(h, a) && Full(h.log) && !Far(h.span, SpanOf(a)) && Extends(h.span, SpanOf(a))
  }

  /** The span then begun is too long by the overhang over the old one. */
  predicate Overshot(h: Held, a: Access, b: int) {
    && Overshoots(h, a)
    && Last(SpanOf(a)) < b <= Last(SpanOf(a)) + Overhang(h.span, SpanOf(a))
  }

  /** The block lies between the two spans and belongs to neither. */
  predicate Between(cur: Span, s: Span, b: int) {
    Last(cur) < b < s.off || Last(s) < b < cur.off
  }

  ghost predicate Gap(cur: Span, s: Span) {
    exists b :: Between(cur, s, b)
  }

  /** An access to the current file ends the current span exactly if a block lies between them or the string is full. */
  lemma SameFileReportsIff(h: Held, a: Access, resolved: bool, wanted: bool)
    requires Proper(h) && Same(h, a)
    ensures Emitted(h, Io(a, resolved, wanted)) != [] <==> Gap(h.span, SpanOf(a)) || TextLength(h.log) >= 4032
  {
    hide SpanOf, TextLength;
    var cur, s := h.span, SpanOf(a);
    if Far(cur, s) {
      assert Between(cur, s, if s.off > Last(cur) + 1 then s.off - 1 else cur.off - 1);
    }
  }

  /** Closing reports the span exactly if it is that of the file closed, or the thread ends. */
  lemma CloseReportsIff(h: Held, f: int)
    requires Proper(h)
    ensures Emitted(h, Close(f)) != [] <==> h.span.fd >= 0 && (f == -1 || f == h.span.fd)
    ensures Emitted(h, Close(f)) == [] ==> Grown(h, Close(f)) == h
  {
  }

  /** A block that no byte of the access lies in, and that is recorded with it all the same. */
  predicate MadeUp(h: Held, e: Event, f: int, b: int) {
    Taken(h, e) && f == e.a.fd && (RoundedUp(e.a, b) || Overshot(h, e.a, b))
  }

  ghost predicate Meant(h: Held, e: Event, f: int, b: int) {
    Taken(h, e) && f == e.a.fd && Touches(e.a, b)
  }

  /** No byte of the access lies in a block that it makes up. */
  lemma MadeUpIsUntouched(h: Held, e: Event, f: int, b: int)
    requires MadeUp(h, e, f, b)
    ensures !Touches(e.a, b)
  {
    hide Full, Touches;
    SpanHoldsExactly(e.a, b);
  }

  /** One event loses no block and gains those touched and those made up. */
  lemma StepCovers(h: Held, e: Event, f: int, b: int)
    requires Proper(h) && f >= 0
    ensures Proper(Grown(h, e))
    ensures Reports(Emitted(h, e), f, b) || Holds(Grown(h, e).span, f, b) <==>
            Holds(h.span, f, b) || Meant(h, e, f, b) || MadeUp(h, e, f, b)
  {
    hide Full, Touches, RoundedUp, SpanOf;
    if Taken(h, e) {
      SpanHoldsExactly(e.a, b);
      if Same(h, e.a) && !Far(h.span, SpanOf(e.a)) {
        HullIsUnion(h.span, SpanOf(e.a), b);
      }
    }
    assert |Emitted(h, e)| == 1 ==> Reports(Emitted(h, e), f, b) == Holds(Emitted(h, e)[0].span, f, b);
  }

  // ----- Runs

  /** What is held after the first `k` events. */
  function After(events: seq<Event>, k: nat): Held
    requires k <= |events|
  {
    if k == 0 then NOTHING else Grown(After(events, k - 1), events[k - 1])
  }

  /** What the first `k` events have reported. */
  function Emits(events: seq<Event>, k: nat): seq<Report>
    requires k <= |events|
  {
    if k == 0 then [] else Emits(events, k - 1) + Emitted(After(events, k - 1), events[k - 1])
  }

  /** Some recorded access touches the block. */
  ghost predicate Touched(events: seq<Event>, k: nat, f: int, b: int)
    requires k <= |events|
  {
    exists i | 0 <= i < k :: Meant(After(events, i), events[i], f, b)
  }

  /** Some recorded access made the block up. */
  ghost predicate Invented(events: seq<Event>, k: nat, f: int, b: int)
    requires k <= |events|
  {
    exists i | 0 <= i < k :: MadeUp(After(events, i), events[i], f, b)
  }

  /**
   After any events the blocks reported or held are exactly those touched by a recorded access
   and those made up with one.
   */
  lemma {:induction false} RunCovers(events: seq<Event>, k: nat, f: int, b: int)
    requires k <= |events| && f >= 0
    ensures Proper(After(events, k))
    ensures Reports(Emits(events, k), f, b) || Holds(After(events, k).span, f, b) <==>
            Touched(events, k, f, b) || Invented(events, k, f, b)
  {
    hide Meant, MadeUp, Grown, Emitted;
    if k > 0 {
      RunCovers(events, k - 1, f, b);
      var h := After(events, k - 1);
      StepCovers(h, events[k - 1], f, b);
      ReportsMore(Emits(events, k - 1), Emitted(h, events[k - 1]), f, b);
    }
  }

  /** The access makes no block up: its last byte is the first of its block, and it does not overshoot. */
  predicate Harmless(h: Held, e: Event) {
    Taken(h, e) ==> (e.a.off + e.a.size - 1) % BLKSIZE == 0 && !Overshoots(h, e.a)
  }

  lemma HarmlessIff(h: Held, e: Event)
    ensures Harmless(h, e) <==> forall f, b :: !MadeUp(h, e, f, b)
  {
    hide Full, SpanOf;
    if Taken(h, e) && !Harmless(h, e) {
      var end := e.a.off + e.a.size - 1;
      var b := if end % BLKSIZE != 0 then end / BLKSIZE + 1 else Last(SpanOf(e.a)) + 1;
      assert MadeUp(h, e, e.a.fd, b);
    }
  }

  /** A run makes no block up exactly if none of its accesses does. */
  lemma NothingInventedIff(events: seq<Event>, k: nat)
    requires k <= |events|
    ensures (forall f, b :: !Invented(events, k, f, b)) <==> forall i | 0 <= i < k :: Harmless(After(events, i), events[i])
  {
    hide Harmless, MadeUp, After;
    forall i | 0 <= i < k
      ensures Harmless(After(events, i), events[i]) <==> forall f, b :: !MadeUp(After(events, i), events[i], f, b)
    {
      HarmlessIff(After(events, i), events[i]);
    }
    if i, f, b :| 0 <= i < k && MadeUp(After(events, i), events[i], f, b) {
      assert Invented(events, k, f, b);
    }
  }

  // ----- What the reports say of the accesses

  function Logged(reports: seq<Report>): seq<Access> {
    if reports == [] then [] else Logged(reports[..|reports| - 1]) + reports[|reports| - 1].log
  }

  lemma LoggedMore(reports: seq<Report>, more: seq<Report>)
    requires |more| <= 1
    ensures Logged(reports + more) == Logged(reports) + Logged(more)
  {
    if |more| == 1 {
      assert (reports + more)[..|reports|] == reports;
      assert Logged(more) == [] + more[0].log == more[0].log;
    } else {
      assert reports + more == reports;
    }
  }

  /** The accesses in the string of a span that is still to be reported. */
  function Pending(h: Held): seq<Access> {
    if h.span.fd == -1 then [] else h.log
  }

  /** The recorded ones among the first `k` accesses. */
  function Recorded(events: seq<Event>, k: nat): seq<Access>
    requires k <= |events|
  {
    if k == 0 then []
    else Recorded(events, k - 1) + if Taken(After(events, k - 1), events[k - 1]) then [events[k - 1].a] else []
  }

  /** If no access is to a file that is resolved and wanted, nothing is ever recorded or reported. */
  lemma {:induction false} UnwantedIgnored(events: seq<Event>, k: nat)
    requires k <= |events| && forall i | 0 <= i < |events| && events[i].Io? :: !(events[i].resolved && events[i].wanted)
    ensures After(events, k).span == NOTHING.span && Emits(events, k) == [] && Recorded(events, k) == []
  {
    hide SpanOf, Full, Far, Extends;
    if k > 0 { UnwantedIgnored(events, k - 1); }
  }

  /** The `i`-th event is a valid access to a file that is resolved and wanted. */
  predicate Wanted(events: seq<Event>, i: nat)
    requires i < |events|
  {
    events[i].Io? && Sound(events[i].a) && events[i].resolved && events[i].wanted
  }

  /** If all events are such accesses, all of them are recorded, in order. */
  lemma {:induction false} WantedRecorded(events: seq<Event>, k: nat)
    requires k <= |events| && forall i | 0 <= i < |events| :: Wanted(events, i)
    ensures |Recorded(events, k)| == k && forall i | 0 <= i < k :: Wanted(events, i) && Recorded(events, k)[i] == events[i].a
  {
    hide SpanOf, Full, Far, Extends;
    if k > 0 {
      WantedRecorded(events, k - 1);
      assert Wanted(events, k - 1);
    }
  }

  lemma StepLogs(h: Held, e: Event)
    requires Proper(h)
    ensures Proper(Grown(h, e)) && |Emitted(h, e)| <= 1
    ensures Logged(Emitted(h, e)) + Pending(Grown(h, e)) == Pending(h) + if Taken(h, e) then [e.a] else []
  {
    hide Full, SpanOf, Far, Extends;
    assert |Emitted(h, e)| == 1 ==> Logged(Emitted(h, e)) == [] + Emitted(h, e)[0].log;
  }

  lemma Regroup(a: seq<Access>, b: seq<Access>, c: seq<Access>, d: seq<Access>, e: seq<Access>)
    requires b + c == d + e
    ensures (a + b) + c == (a + d) + e
  {
    assert (a + b) + c == a + (b + c) && (a + d) + e == a + (d + e);
  }

  /** The access strings of the reports, joined, list every recorded access once and in order. */
  lemma {:induction false} LogConserved(events: seq<Event>, k: nat)
    requires k <= |events|
    ensures Proper(After(events, k))
    ensures Logged(Emits(events, k)) + Pending(After(events, k)) == Recorded(events, k)
  {
    hide Grown, Emitted;
    if k > 0 {
      LogConserved(events, k - 1);
      var h, e := After(events, k - 1), events[k - 1];
      StepLogs(h, e);
      LoggedMore(Emits(events, k - 1), Emitted(h, e));
      Regroup(Logged(Emits(events, k - 1)), Logged(Emitted(h, e)), Pending(Grown(h, e)),
              Pending(h), if Taken(h, e) then [e.a] else []);
    }
  }

  /** Size and offset fit into 64 bits. */
  predicate Narrow(a: Access) {
    a.size < 0x1_0000_0000_0000_0000 && a.off < 0x1_0000_0000_0000_0000
  }

  lemma EntryFits(a: Access)
    requires Narrow(a) && a.off >= 0
    ensures Digits(a.size) + Digits(a.off) + 2 <= 42
  {
    assert Power10(5) == 100_000;
    PowerSum(5, 5);
    PowerSum(10, 10);
    DigitsAtMost(a.size, 20);
    DigitsAtMost(a.off, 20);
  }

  lemma StepFits(h: Held, e: Event)
    requires TextLength(h.log) < IOSTR_BUFSIZE && (e.Io? ==> Narrow(e.a))
    ensures TextLength(Grown(h, e).log) < IOSTR_BUFSIZE
  {
    hide Digits, SpanOf, Far, Extends, TextLength;
    if Taken(h, e) {
      EntryFits(e.a);
      TextMore(h.log, e.a);
    }
  }

  /** The access string never outgrows its buffer, so no entry is cut off. */
  lemma {:induction false} TextFits(events: seq<Event>, k: nat)
    requires k <= |events| && forall i | 0 <= i < |events| && events[i].Io? :: Narrow(events[i].a)
    ensures TextLength(After(events, k).log) < IOSTR_BUFSIZE
  {
    hide Grown;
    if k > 0 {
      TextFits(events, k - 1);
      StepFits(After(events, k - 1), events[k - 1]);
    }
  }

  // ----- Under which path a span is reported

  /** A span is reported under its own file's path unless another file took over or was the last one resolved. */
  lemma ReportedNameIff(h: Held, e: Event)
    requires Proper(h) && Emitted(h, e) != []
    ensures Emitted(h, e)[0].named == h.span.fd <==> !TakesOver(h, e) && h.named == h.span.fd
  {
  }

  /** Every access whose path is resolved is recorded. */
  predicate Unfiltered(events: seq<Event>) {
    forall i | 0 <= i < |events| && events[i].Io? && events[i].resolved :: events[i].wanted && Sound(events[i].a)
  }

  lemma {:induction false} OwnNameHeld(events: seq<Event>, k: nat)
    requires k <= |events| && Unfiltered(events)
    ensures var h := After(events, k); Proper(h) && (h.span.fd != -1 ==> h.named == h.span.fd)
  {
    hide Full, SpanOf, Far, Extends;
    if k > 0 { OwnNameHeld(events, k - 1); }
  }

  /** If every resolved access is recorded, the misnamed reports are exactly those made when another file takes over. */
  lemma MisnamedIffTakenOver(events: seq<Event>, k: nat)
    requires k < |events| && Unfiltered(events) && Emitted(After(events, k), events[k]) != []
    ensures var h := After(events, k);
            Emitted(h, events[k])[0].named != h.span.fd <==> TakesOver(h, events[k])
  {
    OwnNameHeld(events, k);
    ReportedNameIff(After(events, k), events[k]);
  }

  // ----- Runs that make blocks up

  /** Two bytes at the start of a file are recorded as two blocks. */
  lemma TwoBytesTwoBlocks()
    ensures var events := [Io(Access(3, 2, 0), true, true)];
            Invented(events, 1, 3, 1) && !Touched(events, 1, 3, 1)
  {
    var events := [Io(Access(3, 2, 0), true, true)];
    assert After(events, 0) == NOTHING;
    assert MadeUp(After(events, 0), events[0], 3, 1);
    TouchesIff(events[0].a, 1);
  }

  /** The first byte of a file is read over and over. */
  function Repeated(n: nat): seq<Event> {
    seq(n, _ => Io(Access(3, 1, 0), true, true))
  }

  lemma {:induction false} RepeatedFills(events: seq<Event>, n: nat, k: nat)
    requires 0 < k <= n <= 1008 && n <= |events| && events[..n] == Repeated(n)
    ensures var h := After(events, k);
            h.span == Span(3, 0, 1) && h.named == 3 && TextLength(h.log) == 4 * k
  {
    var a := Access(3, 1, 0);
    assert events[k - 1] == events[..n][k - 1] == Io(a, true, true);
    if k == 1 {
      assert After(events, 0) == NOTHING;
      TextMore([], a);
    } else {
      RepeatedFills(events, n, k - 1);
      TextMore(After(events, k - 1).log, a);
    }
  }

  lemma NextOvershoots(h: Held)
    requires h.span == Span(3, 0, 1) && TextLength(h.log) == 4032
    ensures MadeUp(h, Io(Access(3, 4096, 1), true, true), 3, 2)
  {
    hide TextLength;
    assert SpanOf(Access(3, 4096, 1)) == Span(3, 0, 2);
  }

  /** The access string is full after 1008 reads; the next access is then recorded with a block behind its end. */
  lemma FullStringOvershoots()
    ensures var events := Repeated(1008) + [Io(Access(3, 4096, 1), true, true)];
            Invented(events, 1009, 3, 2) && !Touched(events, 1009, 3, 2)
  {
    hide After, TextLength, MadeUp, Touches;
    var events := Repeated(1008) + [Io(Access(3, 4096, 1), true, true)];
    assert events[..1008] == Repeated(1008);
    RepeatedFills(events, 1008, 1008);
    NextOvershoots(After(events, 1008));
    TouchesIff(Access(3, 1, 0), 2);
    TouchesIff(Access(3, 4096, 1), 2);
    forall i | 0 <= i < 1009 ensures !Meant(After(events, i), events[i], 3, 2) {
      assert i < 1008 ==> events[i] == events[..1008][i];
    }
  }

  /** A span is reported under the path of the file that is accessed next. */
  lemma ReportedUnderNextPath()
    ensures var events := [Io(Access(3, 1, 0), true, true), Io(Access(4, 1, 0), true, true)];
            Emits(events, 2) == [Report(Span(3, 0, 1), [Access(3, 1, 0)], 4)]
  {
    var events := [Io(Access(3, 1, 0), true, true), Io(Access(4, 1, 0), true, true)];
    assert After(events, 1) == Held(Span(3, 0, 1), [Access(3, 1, 0)], 3) by {
      assert After(events, 0) == NOTHING;
    }
    assert Emits(events, 1) == [];
  }

  // ----- The program

  class Batch {
    var fd: int
    var off: int
    var size: nat
    var iostr: seq<Access>
    var path: int
    var reported: seq<Report>

    constructor ()
      ensures Now() == NOTHING && reported == []
    {
      fd, off, size, iostr, path, reported := -1, -1, 0, [], -1, [];
    }

    function Now(): Held
      reads this
    {
      Held(Span(fd, off, size), iostr, path)
    }

    /** The block has been reported or is still in the current span. */
    ghost predicate Has(f: int, b: int)
      reads this
    {
      Reports(reported, f, b) || Holds(Now().span, f, b)
    }

    /** `batch_read_write_notify`: report the current span and start that of the access. */
    method Notify(a: Access, s: Span)
      modifies this
      ensures Now() == Held(s, [a], old(path))
      ensures reported == old(reported) + GivenUp(old(Now()), old(path))
    {
      if fd != -1 && size != 0 {
        reported := reported + [Report(Span(fd, off, size), iostr, path)];
      }
      fd, off, size, iostr := s.fd, s.off, s.size, [a];
    }

    /** `record_iostr`: add the access to the string, or start anew if there is no room. */
    method RecordIostr(a: Access, s: Span)
      modifies this
      ensures !old(Full(iostr)) ==> Now() == old(Now()).(log := old(iostr) + [a]) && reported == old(reported)
      ensures old(Full(iostr)) ==>
                Now() == Held(s, [a], old(path)) && reported == old(reported) + GivenUp(old(Now()), old(path))
    {
      if TextLength(iostr) + 64 >= IOSTR_BUFSIZE {
        Notify(a, s);
      } else {
        iostr := iostr + [a];
      }
    }

    /**
     `batch_read_write_first`, for an access to the current file.  A valid access never fails.  With
     room in the string, the current span grows to the hull or is replaced.  When the string
     is full the span is replaced by that of the access, but the growth that follows still
     uses the old ends: an access that extends the old span at one end makes the new
     one too long by its overhang.
     */
    method First(a: Access) returns (ret: int)
      modifies this
      ensures ret == if a.fd < 0 || a.size == 0 || a.off < 0 then -1 else 0
      ensures !Sound(a) ==> Now() == old(Now()) && reported == old(reported)
      ensures Sound(a) ==>
                && Now() == Joined(old(Now()), a)
                && reported == old(reported) + if StartsAnew(old(Now()), a) then GivenUp(old(Now()), old(path)) else []
    {
      hide Full, SpanOf;
      if a.fd < 0 || a.size == 0 || a.off < 0 {
        return -1;
      }
      var lastStart, lastEnd := off, off + size - 1;
      var s := SpanOf(a);
      var currStart, currEnd := s.off, Last(s);
      var next, prev := lastEnd + 1, lastStart - 1;
      if currStart > next || currEnd < prev {
        Notify(a, s);
        return 0;
      }
      RecordIostr(a, s);
      if currStart >= lastStart && currEnd <= lastEnd {
        return 0;
      }
      if currStart >= lastStart && currStart <= next && currEnd >= next {
        size := size + (currEnd - lastEnd);
        return 0;
      }
      if currStart <= lastStart && currEnd >= lastEnd {
        off := currStart;
        size := s.size;
        return 0;
      }
      if currStart < lastStart && currEnd >= prev && currEnd <= lastEnd {
        off := currStart;
        size := size + (lastStart - currStart);
        return 0;
      }
      return -1;
    }

    /** `batch_read_write_second`: always a new span. */
    method Second(a: Access)
      modifies this
      ensures !Sound(a) ==> Now() == old(Now()) && reported == old(reported)
      ensures Sound(a) ==>
                Now() == Held(SpanOf(a), [a], old(path)) && reported == old(reported) + GivenUp(old(Now()), old(path))
    {
      if a.fd < 0 || a.size == 0 || a.off < 0 {
        return;
      }
      Notify(a, SpanOf(a));
    }

    lemma Gains(h: Held, before: seq<Report>, e: Event)
      requires Proper(h) && Now() == Grown(h, e) && reported == before + Emitted(h, e)
      ensures Proper(Now())
      ensures forall f, b | f >= 0 ::
                Has(f, b) <==> Reports(before, f, b) || Holds(h.span, f, b) || Meant(h, e, f, b) || MadeUp(h, e, f, b)
    {
      hide Meant, MadeUp, Grown, Emitted, Reports, Holds;
      StepCovers(h, e, 0, 0);
      forall f, b | f >= 0
        ensures Has(f, b) <==> Reports(before, f, b) || Holds(h.span, f, b) || Meant(h, e, f, b) || MadeUp(h, e, f, b)
      {
        StepCovers(h, e, f, b);
        ReportsMore(before, Emitted(h, e), f, b);
      }
    }

    /**
     How `read`, `write` and their relatives use the two; resolving a path overwrites the path buffer.
     No block is lost, and those gained are the ones the access touches or makes up.
     */
    method Record(a: Access, resolved: bool, wanted: bool)
      requires Proper(Now())
      modifies this
      ensures Now() == Grown(old(Now()), Io(a, resolved, wanted)) && Proper(Now())
      ensures reported == old(reported) + Emitted(old(Now()), Io(a, resolved, wanted))
      ensures forall f, b | f >= 0 ::
                var h, e := old(Now()), Io(a, resolved, wanted);
                Has(f, b) <==> old(Has(f, b)) || Meant(h, e, f, b) || MadeUp(h, e, f, b)
    {
      ghost var h, before := Now(), reported;
      var done := false;
      if fd == a.fd {
        var ret := First(a);
        done := ret == 0;
      }
      if !done && resolved {
        path := a.fd;
        if wanted {
          Second(a);
        }
      }
      Gains(h, before, Io(a, resolved, wanted));
    }

    /** `read_close` and its relatives: the span is reported, and nothing is lost or gained. */
    method CloseFile(f: int)
      requires Proper(Now())
      modifies this
      ensures Now() == Grown(old(Now()), Close(f)) && Proper(Now())
      ensures reported == old(reported) + Emitted(old(Now()), Close(f))
      ensures forall g, b | g >= 0 :: Has(g, b) <==> old(Has(g, b))
    {
      ghost var h, before := Now(), reported;
      if (f == -1 && fd != -1) || (f != -1 && f == fd) {
        reported := reported + [Report(Span(fd, off, size), iostr, path)];
        fd := -1;
      }
      Gains(h, before, Close(f));
    }
  }

  /**
   Any sequence of accesses and closes.  The blocks covered are exactly those touched by a recorded
   access and those made up with one; after the thread has ended all of them are
   reported; and the reports list every recorded access once and in order.
   */
  method Track(events: seq<Event>) returns (reports: seq<Report>, held: Held)
    ensures held == After(events, |events|) && reports == Emits(events, |events|)
    ensures forall f, b | f >= 0 ::
              Reports(reports, f, b) || Holds(held.span, f, b) <==>
              Touched(events, |events|, f, b) || Invented(events, |events|, f, b)
    ensures events != [] && events[|events| - 1] == Close(-1) ==> held.span.fd == -1
    ensures Logged(reports) + Pending(held) == Recorded(events, |events|)
  {
    hide Touched, Invented;
    var batch := new Batch();
    for k := 0 to |events|
      invariant batch.Now() == After(events, k) && batch.reported == Emits(events, k)
    {
      LogConserved(events, k);
      match events[k]
      case Io(a, resolved, wanted) => batch.Record(a, resolved, wanted);
      case Close(f) => batch.CloseFile(f);
    }
    reports, held := batch.reported, batch.Now();
    forall f, b | f >= 0
      ensures Reports(reports, f, b) || Holds(held.span, f, b) <==>
              Touched(events, |events|, f, b) || Invented(events, |events|, f, b)
    {
      RunCovers(events, |events|, f, b);
    }
    LogConserved(events, |events|);
  }
}
