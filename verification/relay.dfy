/** The relay of early-access-telegram-hook.js: the `watchFile` callback
    that re-reads the notification queue and appends one outbound entry
    per unsent notification to the pending file, `sendToTelegramQueue`,
    and the line count the status route reports. */
module Relay {
  import opened Options
  import opened Text
  import opened QueueFormat
  import Producer

  const Recipient := "@GustavoSouzaNapa"
  const PendingStatus := "pending"

  /** One outbound entry: `{timestamp, to, message, status}`. */
  datatype Entry = Entry(timestamp: string, to: string, message: string, status: string)

  /*** Which lines are relayed ***/

  /** `content.split('\n').filter(l => l.trim())` */
  function QueueLines(content: string): seq<string>
  {
    NonBlank(Split(content, '\n'))
  }

  /** What one line contributes: nothing when `JSON.parse` throws (the
      inner `catch` ignores it) or when `sent` is truthy, its message
      otherwise. */
  function LineMessages(line: string, parse: string -> Option<Notification>): seq<string>
  {
    match parse(line)
    case None => []
    case Some(n) => if Unsent(n) then [n.message] else []
  }

  function UnsentMessages(lines: seq<string>, parse: string -> Option<Notification>): seq<string>
  {
    if |lines| == 0 then [] else LineMessages(lines[0], parse) + UnsentMessages(lines[1..], parse)
  }

  /** The messages one run of the callback hands to `sendToTelegramQueue`,
      in line order; `queue` is the queue file, `None` when it does not
      exist. */
  function Poll(queue: Option<string>, parse: string -> Option<Notification>): seq<string>
  {
    if queue.None? then []
    else if Trim(queue.value) == [] then []
    else UnsentMessages(QueueLines(queue.value), parse)
  }

  /** Lines are handled independently and in order. */
  lemma {:induction false} UnsentMessagesAppend(a: seq<string>, b: seq<string>, parse: string -> Option<Notification>)
    ensures UnsentMessages(a + b, parse) == UnsentMessages(a, parse) + UnsentMessages(b, parse)
    decreases |a|
  {
    if |a| == 0 {
      assert a + b == b;
    } else {
      assert (a + b)[1..] == a[1..] + b;
      UnsentMessagesAppend(a[1..], b, parse);
    }
  }

  /** A malformed line is skipped without disturbing the lines around it. */
  lemma MalformedLineSkipped(a: seq<string>, line: string, b: seq<string>, parse: string -> Option<Notification>)
    requires parse(line).None?
    ensures UnsentMessages(a + [line] + b, parse) == UnsentMessages(a, parse) + UnsentMessages(b, parse)
  {
    LineInPlace(a, line, b, parse);
    assert LineMessages(line, parse) == [];
    assert UnsentMessages(a, parse) + [] == UnsentMessages(a, parse);
  }

  /** A line that parses contributes its message, in its place, exactly
      when its `sent` is missing or falsy. */
  lemma ParsedLineRelayedIffUnsent(
    a: seq<string>, line: string, b: seq<string>, parse: string -> Option<Notification>, n: Notification)
    requires parse(line) == Some(n)
    ensures Unsent(n) ==>
              UnsentMessages(a + [line] + b, parse)
              == UnsentMessages(a, parse) + [n.message] + UnsentMessages(b, parse)
    ensures !Unsent(n) ==>
              UnsentMessages(a + [line] + b, parse) == UnsentMessages(a, parse) + UnsentMessages(b, parse)
  {
    LineInPlace(a, line, b, parse);
    if Unsent(n) {
      assert LineMessages(line, parse) == [n.message];
    } else {
      assert LineMessages(line, parse) == [];
      assert UnsentMessages(a, parse) + [] == UnsentMessages(a, parse);
    }
  }

  /** One line's contribution lands between those of the lines around it. */
  lemma LineInPlace(a: seq<string>, line: string, b: seq<string>, parse: string -> Option<Notification>)
    ensures UnsentMessages(a + [line] + b, parse)
            == UnsentMessages(a, parse) + LineMessages(line, parse) + UnsentMessages(b, parse)
  {
    UnsentMessagesAppend(a + [line], b, parse);
    UnsentMessagesAppend(a, [line], parse);
    assert [line][1..] == [];
    assert UnsentMessages([line], parse) == LineMessages(line, parse) + UnsentMessages([], parse);
  }

  /** An absent queue, or one holding only white space, sends nothing. */
  lemma EmptyQueueSendsNothing(queue: Option<string>, parse: string -> Option<Notification>)
    requires queue.None? || AllSpace(queue.value)
    ensures Poll(queue, parse) == []
  {
    if queue.Some? {
      TrimEmptyIffAllSpace(queue.value);
    }
  }

  /** The early return on a blank file changes nothing: a blank file has no
      non-blank line anyway. */
  lemma PollGuardRedundant(content: string, parse: string -> Option<Notification>)
    ensures Poll(Some(content), parse) == UnsentMessages(QueueLines(content), parse)
  {
    TrimEmptyIffAllSpace(content);
    if AllSpace(content) {
      NonBlankLinesOfSpace(content, '\n');
    }
  }

  /** The messages of the unsent notifications among `ns`, in order. */
  function UnsentOf(ns: seq<Notification>): seq<string>
  {
    if |ns| == 0 then [] else (if Unsent(ns[0]) then [ns[0].message] else []) + UnsentOf(ns[1..])
  }

  lemma {:induction false} UnsentOfAppend(a: seq<Notification>, b: seq<Notification>)
    ensures UnsentOf(a + b) == UnsentOf(a) + UnsentOf(b)
    decreases |a|
  {
    if |a| == 0 {
      assert a + b == b;
    } else {
      assert (a + b)[1..] == a[1..] + b;
      UnsentOfAppend(a[1..], b);
    }
  }

  /** Lines that all parse yield the messages of the parsed notifications
      that are unsent. */
  lemma {:induction false} UnsentOfParsed(lines: seq<string>, ns: seq<Notification>, parse: string -> Option<Notification>)
    requires |lines| == |ns|
    requires forall k :: 0 <= k < |lines| ==> parse(lines[k]) == Some(ns[k])
    ensures UnsentMessages(lines, parse) == UnsentOf(ns)
    decreases |lines|
  {
    if |lines| > 0 {
      UnsentOfParsed(lines[1..], ns[1..], parse);
    }
  }

  /** The producer and the relay agree: after a successful append by the
      processor, the relay sends what it sent before plus the new message,
      last. */
  lemma EnqueueThenPoll(file: Option<string>, n: Notification, codec: Codec<Notification>)
    requires Lawful(codec)
    requires Unsent(n)
    requires ParseAll(Producer.StoredLines(file), codec.parse).Some?
    ensures Producer.Enqueue(file, n, codec, true).Some?
    ensures Poll(Producer.Enqueue(file, n, codec, true), codec.parse) == Poll(file, codec.parse) + [n.message]
  {
    var queue := ParseAll(Producer.StoredLines(file), codec.parse).value;
    PollOfWritten(file, n, codec);
    PollOfStored(file, codec);
    UnsentOfAppend(queue, [n]);
  }

  /** The delivery notice the processor queues is relayed: after a
      successful append its message is the last one the relay sends. */
  lemma DeliveryNoticeRelayed(file: Option<string>, timestamp: string, message: string, codec: Codec<Notification>)
    requires Lawful(codec)
    requires ParseAll(Producer.StoredLines(file), codec.parse).Some?
    ensures var n := Producer.DeliveryNotification(timestamp, message);
      && Producer.Enqueue(file, n, codec, true).Some?
      && Poll(Producer.Enqueue(file, n, codec, true), codec.parse) == Poll(file, codec.parse) + [message]
  {
    EnqueueThenPoll(file, Producer.DeliveryNotification(timestamp, message), codec);
  }

  /** What the relay sends from the file the producer just wrote: the
      unsent records among the stored ones and the new one. */
  lemma PollOfWritten(file: Option<string>, n: Notification, codec: Codec<Notification>)
    requires Lawful(codec)
    requires ParseAll(Producer.StoredLines(file), codec.parse).Some?
    ensures Producer.Enqueue(file, n, codec, true).Some?
    ensures Poll(Producer.Enqueue(file, n, codec, true), codec.parse)
            == UnsentOf(ParseAll(Producer.StoredLines(file), codec.parse).value + [n])
  {
    var queue := ParseAll(Producer.StoredLines(file), codec.parse).value;
    Producer.EnqueueAppendsLast(file, n, codec);
    var written := Producer.Enqueue(file, n, codec, true).value;
    var shown := ShowAll(queue + [n], codec.show);
    assert Split(written, '\n') == shown;
    forall k | 0 <= k < |shown| ensures !AllSpace(shown[k]) {
      assert OneLine(codec.show((queue + [n])[k]));
    }
    NonBlankKeepsAll(shown);
    PollGuardRedundant(written, codec.parse);
    UnsentOfParsed(shown, queue + [n], codec.parse);
  }

  /** What the relay sends from a queue file whose every line parses: the
      unsent records, in order. */
  lemma PollOfStored(file: Option<string>, codec: Codec<Notification>)
    requires Lawful(codec)
    requires ParseAll(Producer.StoredLines(file), codec.parse).Some?
    ensures Poll(file, codec.parse) == UnsentOf(ParseAll(Producer.StoredLines(file), codec.parse).value)
  {
    var lines := Producer.StoredLines(file);
    var queue := ParseAll(lines, codec.parse).value;
    if file.Some? {
      forall k | 0 <= k < |lines| ensures !AllSpace(lines[k]) {
        assert codec.parse(lines[k]).Some?;
      }
      NonBlankIsNonEmpty(Split(file.value, '\n'));
      PollGuardRedundant(file.value, codec.parse);
      UnsentOfParsed(lines, queue, codec.parse);
    }
  }

  /*** Appending to the pending file ***/

  function FileText(f: Option<string>): string
  {
    if f.None? then "" else f.value
  }

  /** Empty, absent, or ending in a newline: the next append starts a line
      of its own. */
  predicate LineTerminated(f: Option<string>)
  {
    FileText(f) == [] || FileText(f)[|FileText(f)| - 1] == '\n'
  }

  /** The status route's `pending_notifications`:
      `readFileSync(path).split('\n').filter(l => l).length`, or 0 when the
      file does not exist. */
  function PendingCount(f: Option<string>): nat
  {
    if f.None? then 0 else |NonEmpty(Split(f.value, '\n'))|
  }

  lemma {:induction false} TerminatedEnds(parts: seq<string>, sep: char)
    ensures Terminated(parts, sep) == [] || Terminated(parts, sep)[|Terminated(parts, sep)| - 1] == sep
    decreases |parts|
  {
    if |parts| > 0 {
      TerminatedEnds(parts[1..], sep);
    }
  }

  /** Appending newline-terminated lines to a line-terminated file raises
      the count by the number of lines. */
  lemma CountAfterAppend(p: string, xs: seq<string>)
    requires p == [] || p[|p| - 1] == '\n'
    requires forall k :: 0 <= k < |xs| ==> OneLine(xs[k])
    ensures |NonEmpty(Split(p + Terminated(xs, '\n'), '\n'))| == |NonEmpty(Split(p, '\n'))| + |xs|
  {
    assert NoSep(xs, '\n');
    forall k | 0 <= k < |xs| ensures xs[k] != [] {
      assert OneLine(xs[k]);
    }
    SplitTerminated(xs, '\n');
    NonEmptyKeepsAll(xs);
    NonEmptyAppend(xs, [""]);
    if p == [] {
      assert p + Terminated(xs, '\n') == Terminated(xs, '\n');
    } else {
      var a := p[..|p| - 1];
      assert p == a + ['\n'] + "";
      assert p + Terminated(xs, '\n') == a + ['\n'] + Terminated(xs, '\n');
      SplitAround(a, Terminated(xs, '\n'), '\n');
      SplitAround(a, "", '\n');
      NonEmptyAppend(Split(a, '\n'), xs + [""]);
      NonEmptyAppend(Split(a, '\n'), [""]);
    }
  }

  /** `sendToTelegramQueue(to, message)`: on success one serialized entry
      and a newline are appended (the file is created if absent) and the
      result is `true`; when `appendFileSync` throws the result is `false`
      and the file is as before. `timestamp` is the clock reading. */
  function SendToTelegramQueue(
    pending: Option<string>, to: string, message: string, timestamp: string,
    show: Entry -> string, writeOk: bool): (r: (Option<string>, bool))
    ensures r.1 == writeOk
    ensures !r.1 ==> r.0 == pending
    ensures r.1 ==> r.0.Some? && FileText(r.0) == FileText(pending) + Terminated([show(Entry(timestamp, to, message, PendingStatus))], '\n')
  {
    var line := show(Entry(timestamp, to, message, PendingStatus));
    if writeOk then
      assert Terminated([line], '\n') == line + "\n";
      (Some(FileText(pending) + line + "\n"), true)
    else
      (pending, false)
  }

  /** A successful send adds exactly one line to the status count and
      leaves the file ending in a newline. */
  lemma SendAddsOneLine(
    pending: Option<string>, to: string, message: string, timestamp: string, show: Entry -> string)
    requires LineTerminated(pending)
    requires OneLine(show(Entry(timestamp, to, message, PendingStatus)))
    ensures var r := SendToTelegramQueue(pending, to, message, timestamp, show, true);
      && r.1
      && PendingCount(r.0) == PendingCount(pending) + 1
      && LineTerminated(r.0)
  {
    var line := show(Entry(timestamp, to, message, PendingStatus));
    CountAfterAppend(FileText(pending), [line]);
    TerminatedEnds([line], '\n');
  }

  /** The pieces of the clock and the file system one callback run sees:
      attempt `k` reads `clock(k)` and its append succeeds when
      `writeOk(k)`. */
  datatype RelayEnv = RelayEnv(clock: nat -> string, writeOk: nat -> bool)

  /** The entries that actually reach the pending file, attempts numbered
      from `k`. */
  function Delivered(msgs: seq<string>, env: RelayEnv, k: nat): seq<Entry>
    decreases |msgs|
  {
    if |msgs| == 0 then []
    else
      (if env.writeOk(k) then [Entry(env.clock(k), Recipient, msgs[0], PendingStatus)] else [])
        + Delivered(msgs[1..], env, k + 1)
  }

  /** The `forEach` over the unsent messages. */
  function DeliverFrom(pending: Option<string>, msgs: seq<string>, show: Entry -> string, env: RelayEnv, k: nat)
    : Option<string>
    decreases |msgs|
  {
    if |msgs| == 0 then pending
    else
      var sent := SendToTelegramQueue(pending, Recipient, msgs[0], env.clock(k), show, env.writeOk(k));
      DeliverFrom(sent.0, msgs[1..], show, env, k + 1)
  }

  lemma ShowAllCons(e: Entry, rest: seq<Entry>, show: Entry -> string)
    ensures ShowAll([e] + rest, show) == [show(e)] + ShowAll(rest, show)
  {
    var l := ShowAll([e] + rest, show);
    var r := [show(e)] + ShowAll(rest, show);
    assert |l| == |r|;
    forall i | 0 <= i < |l| ensures l[i] == r[i] {
      if i > 0 {
        assert ([e] + rest)[i] == rest[i - 1];
      }
    }
  }

  lemma {:induction false} DeliverFromAppends(
    pending: Option<string>, msgs: seq<string>, show: Entry -> string, env: RelayEnv, k: nat)
    ensures FileText(DeliverFrom(pending, msgs, show, env, k))
            == FileText(pending) + Terminated(ShowAll(Delivered(msgs, env, k), show), '\n')
    decreases |msgs|
  {
    if |msgs| > 0 {
      var sent := SendToTelegramQueue(pending, Recipient, msgs[0], env.clock(k), show, env.writeOk(k));
      assert DeliverFrom(pending, msgs, show, env, k) == DeliverFrom(sent.0, msgs[1..], show, env, k + 1);
      DeliverFromAppends(sent.0, msgs[1..], show, env, k + 1);
      var rest := Delivered(msgs[1..], env, k + 1);
      var tail := Terminated(ShowAll(rest, show), '\n');
      if env.writeOk(k) {
        var e := Entry(env.clock(k), Recipient, msgs[0], PendingStatus);
        assert Delivered(msgs, env, k) == [e] + rest;
        ShowAllCons(e, rest, show);
        var shown := [show(e)] + ShowAll(rest, show);
        assert shown[1..] == ShowAll(rest, show);
        assert Terminated(shown, '\n') == show(e) + ['\n'] + tail;
        assert Terminated([show(e)], '\n') == show(e) + ['\n'];
        assert FileText(sent.0) == FileText(pending) + (show(e) + ['\n']);
      } else {
        assert Delivered(msgs, env, k) == rest;
        assert sent.0 == pending;
      }
    }
  }

  /** With every append succeeding, each message gives exactly one entry,
      in order, addressed to the fixed recipient with status "pending". */
  lemma {:induction false} OneEntryPerMessage(msgs: seq<string>, env: RelayEnv, k: nat)
    requires forall a :: env.writeOk(a)
    ensures |Delivered(msgs, env, k)| == |msgs|
    ensures forall i :: 0 <= i < |msgs| ==>
              Delivered(msgs, env, k)[i] == Entry(env.clock(k + i), Recipient, msgs[i], PendingStatus)
    decreases |msgs|
  {
    if |msgs| > 0 {
      OneEntryPerMessage(msgs[1..], env, k + 1);
    }
  }

  /*** One run of the watcher callback ***/

  /** The two files the relay touches. */
  datatype RelayState = RelayState(queue: Option<string>, pending: Option<string>)

  /** One run of the `watchFile` callback. Setting `sent = true` on the
      parsed copy is lost: the queue file is never written. */
  function OnQueueChange(
    st: RelayState, parse: string -> Option<Notification>, show: Entry -> string, env: RelayEnv)
    : (st': RelayState)
    ensures st'.queue == st.queue
    ensures FileText(st'.pending)
            == FileText(st.pending) + Terminated(ShowAll(Delivered(Poll(st.queue, parse), env, 0), show), '\n')
  {
    DeliverFromAppends(st.pending, Poll(st.queue, parse), show, env, 0);
    RelayState(st.queue, DeliverFrom(st.pending, Poll(st.queue, parse), show, env, 0))
  }

  /** With every append succeeding, one run adds one counted line per
      unsent notification. */
  lemma RelayCount(st: RelayState, parse: string -> Option<Notification>, show: Entry -> string, env: RelayEnv)
    requires forall e :: OneLine(show(e))
    requires forall a :: env.writeOk(a)
    requires LineTerminated(st.pending)
    ensures PendingCount(OnQueueChange(st, parse, show, env).pending)
            == PendingCount(st.pending) + |Poll(st.queue, parse)|
    ensures LineTerminated(OnQueueChange(st, parse, show, env).pending)
  {
    var msgs := Poll(st.queue, parse);
    var st' := OnQueueChange(st, parse, show, env);
    OneEntryPerMessage(msgs, env, 0);
    var lines := ShowAll(Delivered(msgs, env, 0), show);
    CountAfterAppend(FileText(st.pending), lines);
    TerminatedEnds(lines, '\n');
    if st'.pending.None? {
      assert FileText(st'.pending) == [];
    }
  }

  /** A queue of one unsent notification yields exactly one line in a
      pending file that did not exist. */
  lemma SingleUnsentNotification(
    n: Notification, codec: Codec<Notification>, show: Entry -> string, env: RelayEnv)
    requires Lawful(codec)
    requires Unsent(n)
    requires forall e :: OneLine(show(e))
    requires forall a :: env.writeOk(a)
    ensures Poll(Some(codec.show(n)), codec.parse) == [n.message]
    ensures PendingCount(OnQueueChange(RelayState(Some(codec.show(n)), None), codec.parse, show, env).pending) == 1
  {
    var line := codec.show(n);
    assert OneLine(line);
    SplitWithoutSep(line, '\n');
    NonBlankKeepsAll([line]);
    PollGuardRedundant(line, codec.parse);
    assert UnsentMessages([line], codec.parse) == [n.message];
    RelayCount(RelayState(Some(line), None), codec.parse, show, env);
  }

  /** Since the queue file is never rewritten, a second run on the same
      queue sends every unsent notification again: the pending file gains
      two lines per notification. */
  lemma RepeatedDelivery(
    st: RelayState, parse: string -> Option<Notification>, show: Entry -> string, env1: RelayEnv, env2: RelayEnv)
    requires forall e :: OneLine(show(e))
    requires forall a :: env1.writeOk(a)
    requires forall a :: env2.writeOk(a)
    requires LineTerminated(st.pending)
    ensures var st1 := OnQueueChange(st, parse, show, env1);
      && Poll(st1.queue, parse) == Poll(st.queue, parse)
      && PendingCount(OnQueueChange(st1, parse, show, env2).pending)
         == PendingCount(st.pending) + 2 * |Poll(st.queue, parse)|
  {
    var st1 := OnQueueChange(st, parse, show, env1);
    RelayCount(st, parse, show, env1);
    RelayCount(st1, parse, show, env2);
  }

  /** A later append by the processor triggers the callback again, and the
      run resends every earlier unsent notification before the new one. */
  lemma RelayResendsAfterEnqueue(
    file: Option<string>, n: Notification, codec: Codec<Notification>, pending: Option<string>,
    show: Entry -> string, env1: RelayEnv, env2: RelayEnv)
    requires Lawful(codec)
    requires Unsent(n)
    requires ParseAll(Producer.StoredLines(file), codec.parse).Some?
    ensures var st1 := OnQueueChange(RelayState(file, pending), codec.parse, show, env1);
      && st1.queue == file
      && Poll(Producer.Enqueue(st1.queue, n, codec, true), codec.parse) == Poll(file, codec.parse) + [n.message]
  {
    EnqueueThenPoll(file, n, codec);
  }

  /*** Corrected relay ***/

  /** The line is non-blank, parses and is unsent: the callback makes an
      attempt for it. */
  predicate Attempted(line: string, parse: string -> Option<Notification>)
  {
    Trim(line) != [] && parse(line).Some? && Unsent(parse(line).value)
  }

  /** The line as the corrected callback writes it back. */
  function MarkLine(line: string, codec: Codec<Notification>, delivered: bool): string
  {
    if Attempted(line, codec.parse) && delivered then
      codec.show(codec.parse(line).value.(sent := Present(true)))
    else
      line
  }

  /** The queue lines after a run of the corrected callback: a line whose
      message was appended is rewritten with `sent` set to true, as the
      comment beside `notification.sent = true` says was meant; every other
      line is kept. Attempts are numbered from `k` in line order. */
  function MarkSegments(segs: seq<string>, codec: Codec<Notification>, env: RelayEnv, k: nat)
    : (marked: seq<string>)
    ensures |marked| == |segs|
    decreases |segs|
  {
    if |segs| == 0 then []
    else if Attempted(segs[0], codec.parse) then
      [MarkLine(segs[0], codec, env.writeOk(k))] + MarkSegments(segs[1..], codec, env, k + 1)
    else
      [segs[0]] + MarkSegments(segs[1..], codec, env, k)
  }

  /** The corrected callback: the same appends, and the queue file written
      back with the delivered lines marked. */
  function OnQueueChangeMarking(
    st: RelayState, codec: Codec<Notification>, show: Entry -> string, env: RelayEnv): RelayState
  {
    var st' := OnQueueChange(st, codec.parse, show, env);
    if st.queue.None? || Trim(st.queue.value) == [] then st'
    else RelayState(Some(Join(MarkSegments(Split(st.queue.value, '\n'), codec, env, 0), '\n')), st'.pending)
  }

  /** The messages among `msgs` whose append failed, attempts numbered
      from `k`. */
  function Failed(msgs: seq<string>, env: RelayEnv, k: nat): seq<string>
    decreases |msgs|
  {
    if |msgs| == 0 then []
    else (if env.writeOk(k) then [] else [msgs[0]]) + Failed(msgs[1..], env, k + 1)
  }

  /** What one raw segment of the queue file contributes. */
  function SegmentMessages(line: string, parse: string -> Option<Notification>): seq<string>
  {
    if Trim(line) == [] then [] else LineMessages(line, parse)
  }

  lemma SegmentsCons(h: string, rest: seq<string>, parse: string -> Option<Notification>)
    ensures UnsentMessages(NonBlank([h] + rest), parse)
            == SegmentMessages(h, parse) + UnsentMessages(NonBlank(rest), parse)
  {
    assert ([h] + rest)[1..] == rest;
    var hs := if Trim(h) == [] then [] else [h];
    assert NonBlank([h] + rest) == hs + NonBlank(rest);
    UnsentMessagesAppend(hs, NonBlank(rest), parse);
  }

  /** A marked line no longer yields a message; an attempted line whose
      append failed still does. */
  lemma MarkLineMessages(line: string, codec: Codec<Notification>, delivered: bool)
    requires Lawful(codec)
    requires Attempted(line, codec.parse)
    ensures SegmentMessages(MarkLine(line, codec, delivered), codec.parse)
            == if delivered then [] else [codec.parse(line).value.message]
    ensures delivered ==> '\n' !in MarkLine(line, codec, delivered)
  {
    if delivered {
      var n' := codec.parse(line).value.(sent := Present(true));
      assert OneLine(codec.show(n'));
      TrimEmptyIffAllSpace(codec.show(n'));
      assert codec.parse(codec.show(n')) == Some(n');
    }
  }

  lemma {:induction false} MarkSegmentsSpec(segs: seq<string>, codec: Codec<Notification>, env: RelayEnv, k: nat)
    requires Lawful(codec)
    requires NoSep(segs, '\n')
    ensures NoSep(MarkSegments(segs, codec, env, k), '\n')
    ensures UnsentMessages(NonBlank(MarkSegments(segs, codec, env, k)), codec.parse)
            == Failed(UnsentMessages(NonBlank(segs), codec.parse), env, k)
    decreases |segs|
  {
    if |segs| > 0 {
      var s := segs[0];
      var rest := segs[1..];
      assert segs == [s] + rest;
      SegmentsCons(s, rest, codec.parse);
      var R := UnsentMessages(NonBlank(rest), codec.parse);
      if Attempted(s, codec.parse) {
        var head := MarkLine(s, codec, env.writeOk(k));
        var tail := MarkSegments(rest, codec, env, k + 1);
        MarkSegmentsSpec(rest, codec, env, k + 1);
        MarkLineMessages(s, codec, env.writeOk(k));
        SegmentsCons(head, tail, codec.parse);
        var m := codec.parse(s).value.message;
        assert SegmentMessages(s, codec.parse) == [m];
        assert ([m] + R)[1..] == R;
        assert Failed([m] + R, env, k) == (if env.writeOk(k) then [] else [m]) + Failed(R, env, k + 1);
      } else {
        var tail := MarkSegments(rest, codec, env, k);
        MarkSegmentsSpec(rest, codec, env, k);
        SegmentsCons(s, tail, codec.parse);
        assert MarkSegments(segs, codec, env, k) == [s] + tail;
        assert SegmentMessages(s, codec.parse) == [];
        assert UnsentMessages(NonBlank(segs), codec.parse) == R;
      }
    }
  }

  /** With the correction, the next run on the rewritten queue sends only
      the messages whose append failed; when every append succeeded it
      sends nothing, so each notification is relayed once. */
  lemma MarkedQueueNotRedelivered(st: RelayState, codec: Codec<Notification>, show: Entry -> string, env: RelayEnv)
    requires Lawful(codec)
    ensures Poll(OnQueueChangeMarking(st, codec, show, env).queue, codec.parse)
            == Failed(Poll(st.queue, codec.parse), env, 0)
    ensures (forall a :: env.writeOk(a)) ==>
              Poll(OnQueueChangeMarking(st, codec, show, env).queue, codec.parse) == []
  {
    if st.queue.Some? && Trim(st.queue.value) != [] {
      var segs := Split(st.queue.value, '\n');
      var marked := MarkSegments(segs, codec, env, 0);
      MarkSegmentsSpec(segs, codec, env, 0);
      SplitJoin(marked, '\n');
      PollGuardRedundant(Join(marked, '\n'), codec.parse);
    }
    if forall a :: env.writeOk(a) {
      FailedNone(Poll(st.queue, codec.parse), env, 0);
    }
  }

  lemma {:induction false} FailedNone(msgs: seq<string>, env: RelayEnv, k: nat)
    requires forall a :: env.writeOk(a)
    ensures Failed(msgs, env, k) == []
    decreases |msgs|
  {
    if |msgs| > 0 {
      FailedNone(msgs[1..], env, k + 1);
    }
  }
}
