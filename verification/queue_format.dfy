/** The line-delimited notification queue shared by the processor
    (writer) and the relay (reader), with `JSON.parse` / `JSON.stringify`
    abstracted into a codec. */
module QueueFormat {
  import opened Options
  import opened Text

  /** The truthiness of a notification's `sent` property; a missing
      property reads as `undefined`, which is falsy. */
  datatype Sent = Absent | Present(truthy: bool)

  /** One queued delivery event, as the processor writes it:
      `{timestamp, type, message, sent}`. */
  datatype Notification = Notification(timestamp: string, kind: string, message: string, sent: Sent)

  /** `!notification.sent` */
  predicate Unsent(n: Notification)
  {
    n.sent.Absent? || !n.sent.truthy
  }

  /** `JSON.parse` of one line (`None` when it throws) and `JSON.stringify`. */
  datatype Codec<!T> = Codec(parse: string -> Option<T>, show: T -> string)

  /** What `JSON.stringify` of an object produces: text on one line that
      starts with `{`, so it is never all white space. */
  predicate OneLine(s: string)
  {
    '\n' !in s && !AllSpace(s)
  }

  /** The laws the pipeline relies on: parsing a serialized value gives
      it back, serializations are single non-blank lines, and white space
      alone never parses. */
  ghost predicate Lawful<T(!new)>(c: Codec<T>)
  {
    && (forall x :: c.parse(c.show(x)) == Some(x))
    && (forall x :: OneLine(c.show(x)))
    && (forall s :: AllSpace(s) ==> c.parse(s).None?)
  }

  /** `lines.map(l => JSON.parse(l))`: the parsed values in order, or
      nothing as soon as one line throws. */
  function ParseAll<T>(lines: seq<string>, parse: string -> Option<T>): (r: Option<seq<T>>)
    ensures r.Some? <==> forall k :: 0 <= k < |lines| ==> parse(lines[k]).Some?
    ensures r.Some? ==>
      && |r.value| == |lines|
      && forall k :: 0 <= k < |lines| ==> parse(lines[k]) == Some(r.value[k])
  {
    if |lines| == 0 then Some([])
    else match parse(lines[0])
      case None => None
      case Some(x) =>
        match ParseAll(lines[1..], parse)
        case None => None
        case Some(xs) => Some([x] + xs)
  }

  /** `values.map(v => JSON.stringify(v))` */
  function ShowAll<T>(values: seq<T>, show: T -> string): (r: seq<string>)
    ensures |r| == |values|
    ensures forall k :: 0 <= k < |values| ==> r[k] == show(values[k])
  {
    seq(|values|, k requires 0 <= k < |values| => show(values[k]))
  }
}
