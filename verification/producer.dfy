/** The queue-append block of `notifyTelegram` (early-access-processor.js):
    read the queue file, parse every non-empty line, push the new
    notification and rewrite the file. */
module Producer {
  import opened Options
  import opened Text
  import opened QueueFormat

  const DeliveryKind := "delivery"

  /** The notification pushed for one delivery; the message text and the
      timestamp come from the caller. */
  function DeliveryNotification(timestamp: string, message: string): (n: Notification)
    ensures Unsent(n) && n.kind == DeliveryKind
    ensures n.message == message && n.timestamp == timestamp && n.sent == Present(false)
  {
    Notification(timestamp, DeliveryKind, message, Present(false))
  }

  /** The lines `readFileSync(path).split('\n').filter(l => l)` yields; an
      absent file gives none. */
  function StoredLines(file: Option<string>): seq<string>
  {
    if file.None? then [] else NonEmpty(Split(file.value, '\n'))
  }

  /** The queue file after one append. `writeOk` says whether
      `writeFileSync` succeeds. A line that does not parse, or a failed
      write, throws inside the `try`; the `catch` only logs, so the file
      keeps its old contents. */
  function Enqueue(file: Option<string>, n: Notification, codec: Codec<Notification>, writeOk: bool)
    : (file': Option<string>)
    ensures !writeOk ==> file' == file
    ensures (exists k :: 0 <= k < |StoredLines(file)| && codec.parse(StoredLines(file)[k]).None?) ==>
              file' == file
    ensures file.Some? ==> file'.Some?
  {
    match ParseAll(StoredLines(file), codec.parse)
    case None => file
    case Some(queue) =>
      if writeOk then Some(Join(ShowAll(queue + [n], codec.show), '\n')) else file
  }

  /** After a successful append the file holds one line per queued
      notification: the old ones re-serialized in order, then the new one;
      no blank line and no trailing newline. */
  lemma EnqueueAppendsLast(file: Option<string>, n: Notification, codec: Codec<Notification>)
    requires Lawful(codec)
    requires ParseAll(StoredLines(file), codec.parse).Some?
    ensures var queue := ParseAll(StoredLines(file), codec.parse).value;
      && Enqueue(file, n, codec, true).Some?
      && Split(Enqueue(file, n, codec, true).value, '\n') == ShowAll(queue, codec.show) + [codec.show(n)]
      && NonEmpty(Split(Enqueue(file, n, codec, true).value, '\n')) == ShowAll(queue, codec.show) + [codec.show(n)]
      && codec.parse(codec.show(n)) == Some(n)
  {
    var queue := ParseAll(StoredLines(file), codec.parse).value;
    var shown := ShowAll(queue + [n], codec.show);
    assert shown == ShowAll(queue, codec.show) + [codec.show(n)];
    forall k | 0 <= k < |shown|
      ensures '\n' !in shown[k] && shown[k] != []
    {
      assert OneLine(codec.show((queue + [n])[k]));
    }
    SplitJoin(shown, '\n');
    NonEmptyKeepsAll(shown);
  }

  /** Lines already in the form `JSON.stringify` writes are kept verbatim:
      the new file is the old non-empty lines, in order, then the new
      notification. */
  lemma EnqueueKeepsCanonicalLines(file: Option<string>, n: Notification, codec: Codec<Notification>)
    requires Lawful(codec)
    requires forall k :: 0 <= k < |StoredLines(file)| ==>
               && codec.parse(StoredLines(file)[k]).Some?
               && codec.show(codec.parse(StoredLines(file)[k]).value) == StoredLines(file)[k]
    ensures Enqueue(file, n, codec, true).Some?
    ensures Split(Enqueue(file, n, codec, true).value, '\n') == StoredLines(file) + [codec.show(n)]
  {
    EnqueueAppendsLast(file, n, codec);
    var queue := ParseAll(StoredLines(file), codec.parse).value;
    assert ShowAll(queue, codec.show) == StoredLines(file);
  }

  /** Several appends in a row, the i-th with write outcome `writeOk[i]`. */
  function EnqueueAll(file: Option<string>, ns: seq<Notification>, codec: Codec<Notification>, writeOk: seq<bool>)
    : Option<string>
    requires |writeOk| == |ns|
    decreases |ns|
  {
    if |ns| == 0 then file
    else EnqueueAll(Enqueue(file, ns[0], codec, writeOk[0]), ns[1..], codec, writeOk[1..])
  }

  /** One line that does not parse blocks the queue for good: every later
      append is dropped and the file never changes again. */
  lemma {:induction false} MalformedLineBlocksQueue(
    file: Option<string>, k: nat, ns: seq<Notification>, codec: Codec<Notification>, writeOk: seq<bool>)
    requires |writeOk| == |ns|
    requires k < |StoredLines(file)| && codec.parse(StoredLines(file)[k]).None?
    ensures EnqueueAll(file, ns, codec, writeOk) == file
    decreases |ns|
  {
    if |ns| > 0 {
      assert Enqueue(file, ns[0], codec, writeOk[0]) == file;
      MalformedLineBlocksQueue(file, k, ns[1..], codec, writeOk[1..]);
    }
  }

  /** In particular a line of white space only, which the relay would
      skip, silently drops every notification queued after it. */
  lemma BlankLineBlocksQueue(
    file: Option<string>, k: nat, ns: seq<Notification>, codec: Codec<Notification>, writeOk: seq<bool>)
    requires Lawful(codec)
    requires |writeOk| == |ns|
    requires k < |StoredLines(file)| && AllSpace(StoredLines(file)[k])
    ensures EnqueueAll(file, ns, codec, writeOk) == file
  {
    MalformedLineBlocksQueue(file, k, ns, codec, writeOk);
  }
}
