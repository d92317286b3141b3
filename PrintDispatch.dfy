/**
 * What `sseLoop` (Maximo.kt) does with the stream of connection states the
 * SSE client hands it: build the stream URL, then for each received event of
 * type `print` with an id above the last one processed, parse the label
 * request and send it when the printer is allowed.
 *
 * The SSE client, Gson, the printer socket and logging are outside the
 * model: the states arrive as a sequence, and JSON parsing is a partial
 * function parameter.
 */
module PrintDispatch {
  import opened Wrappers
  import opened KotlinText
  import ConfigurationRules

  /** The stream URL: the Maximo URL, then the endpoint, with a `/` inserted when the endpoint lacks one. */
  function SseUrl(base: string, endpoint: string): (r: string)
    ensures StartsWith(r, base) && |r| > |base| && r[|base|] == '/'
    ensures StartsWith(endpoint, "/") ==> r == base + endpoint
    ensures !StartsWith(endpoint, "/") ==> r == base + "/" + endpoint
  {
    var r := base + if StartsWith(endpoint, "/") then endpoint else "/" + endpoint;
    assert r[..|base|] == base;
    r
  }

  /** Writing the endpoint with or without its leading `/` gives the same stream URL. */
  lemma SseUrlLeadingSlash(base: string, endpoint: string)
    requires !StartsWith(endpoint, "/")
    ensures SseUrl(base, "/" + endpoint) == SseUrl(base, endpoint)
  {
    assert ("/" + endpoint)[..1] == "/";
  }

  /** With every default in place the stream is `https://<host>/maximo/labeldispatch`. */
  lemma DefaultStreamUrl(username: Option<string>, host: string)
    requires !EndsWith(host, "/")
    ensures var m := ConfigurationRules.WithDefaults(username, host);
            SseUrl(ConfigurationRules.Url(m), m.sseEndpoint) == "https://" + host + "/maximo" + "/labeldispatch"
  {
    var m := ConfigurationRules.WithDefaults(username, host);
    var base := ConfigurationRules.Url(m);
    ConfigurationRules.DefaultUrl(username, host);
    assert base == "https://" + host + "/maximo";
    assert StartsWith(m.sseEndpoint, "/") by { assert m.sseEndpoint[..1] == "/"; }
    assert SseUrl(base, m.sseEndpoint) == base + "/labeldispatch";
  }

  /** An event as the SSE client delivers it. */
  datatype Event = Event(eventType: string, lastEventId: string, data: string)

  /** A state of the SSE client's output; only `WithEvent` carries an event. */
  datatype SourceState = WithEvent(lastEvent: Event) | OtherState

  /** The label request carried in a print event's JSON data. */
  datatype PrintData = PrintData(printer: string, port: int, labelText: string, timeout: int)

  const DefaultTimeout: int := 5000

  /** The `PrintData` constructor with its default timeout. */
  function NewPrintData(printer: string, port: int, labelText: string, timeout: Option<int>): (p: PrintData)
    ensures p.printer == printer && p.port == port && p.labelText == labelText
    ensures timeout.None? ==> p.timeout == 5000
    ensures timeout.Some? ==> p.timeout == timeout.value
  {
    PrintData(printer, port, labelText, timeout.GetOr(DefaultTimeout))
  }

  /** The allow-list test: no list, an empty list, or a list naming the printer. */
  predicate PrinterAllowed(printers: Option<seq<string>>, printer: string)
    ensures printers.None? || printers == Some([]) ==> PrinterAllowed(printers, printer)
    ensures printers.Some? && printers.value != [] ==> (PrinterAllowed(printers, printer) <==> printer in printers.value)
  {
    printers.None? || |printers.value| == 0 || printer in printers.value
  }

  /** Why the loop ended: the stream ran out, or a print event's id was not a Long. */
  datatype LoopEnd = Drained | BadEventId(id: string)

  /**
   * The loop's state: `lastProcessedEventId`, the ids acted on, the labels
   * handed to the printer socket, and whether `toLong()` has thrown.
   */
  datatype LoopState = LoopState(lastProcessedEventId: int, handled: seq<int>, sent: seq<PrintData>, end: LoopEnd)

  const Initial: LoopState := LoopState(-1, [], [], Drained)

  /** The print event this state carries, if any. */
  predicate IsPrintEvent(item: SourceState) {
    item.WithEvent? && item.lastEvent.eventType == "print"
  }

  /** The body of `collect` for one item. */
  function Step(s: LoopState, item: SourceState, printers: Option<seq<string>>, parse: string -> Option<PrintData>): (r: LoopState)
    ensures s.end.BadEventId? || !IsPrintEvent(item) ==> r == s
    ensures r.lastProcessedEventId >= s.lastProcessedEventId
    ensures s.handled <= r.handled && |r.handled| <= |s.handled| + 1
    ensures s.sent <= r.sent && |r.sent| <= |s.sent| + 1
    ensures r.end != s.end ==> IsPrintEvent(item) && ToLong(item.lastEvent.lastEventId).None?
  {
    if s.end.BadEventId? || !IsPrintEvent(item) then s
    else
      var e := item.lastEvent;
      match ToLong(e.lastEventId)
      case None => s.(end := BadEventId(e.lastEventId))
      case Some(id) =>
        if id <= s.lastProcessedEventId then s
        else
          var sent := match parse(e.data)
                      case Some(p) => if PrinterAllowed(printers, p.printer) then s.sent + [p] else s.sent
                      case None => s.sent;
          s.(lastProcessedEventId := id, handled := s.handled + [id], sent := sent)
  }

  /** The state after the loop has consumed `items`. */
  function Collect(items: seq<SourceState>, printers: Option<seq<string>>, parse: string -> Option<PrintData>): (r: LoopState)
    ensures r.lastProcessedEventId >= -1
    ensures |r.sent| <= |r.handled| <= |items|
    decreases |items|
  {
    if items == [] then Initial
    else Step(Collect(items[..|items| - 1], printers, parse), items[|items| - 1], printers, parse)
  }

  predicate StrictlyIncreasing(xs: seq<int>) {
    forall i, j :: 0 <= i < j < |xs| ==> xs[i] < xs[j]
  }

  /** What the loop keeps true: ids rise, the last one is remembered, every label sent was allowed. */
  predicate Sound(s: LoopState, printers: Option<seq<string>>) {
    && StrictlyIncreasing(s.handled)
    && (forall i :: 0 <= i < |s.handled| ==> s.handled[i] >= 0)
    && s.lastProcessedEventId == (if s.handled == [] then -1 else s.handled[|s.handled| - 1])
    && (forall p :: p in s.sent ==> PrinterAllowed(printers, p.printer))
    && |s.sent| <= |s.handled|
  }

  lemma StepSound(s: LoopState, item: SourceState, printers: Option<seq<string>>, parse: string -> Option<PrintData>)
    requires Sound(s, printers)
    ensures Sound(Step(s, item, printers, parse), printers)
  {
  }

  /**
   * No event id is acted on twice: the handled ids strictly increase, the
   * last processed id is the newest of them (-1 before any), and only
   * allowed printers receive labels.
   */
  lemma {:induction false} CollectSound(items: seq<SourceState>, printers: Option<seq<string>>, parse: string -> Option<PrintData>)
    ensures Sound(Collect(items, printers, parse), printers)
    decreases |items|
  {
    if items != [] {
      CollectSound(items[..|items| - 1], printers, parse);
      StepSound(Collect(items[..|items| - 1], printers, parse), items[|items| - 1], printers, parse);
    }
  }

  /** Anything but a print event leaves the loop's state as it was. */
  lemma NonPrintIgnored(items: seq<SourceState>, item: SourceState, printers: Option<seq<string>>, parse: string -> Option<PrintData>)
    requires !IsPrintEvent(item)
    ensures Collect(items + [item], printers, parse) == Collect(items, printers, parse)
  {
    assert (items + [item])[..|items|] == items;
    assert Collect(items + [item], printers, parse) == Step(Collect(items, printers, parse), item, printers, parse);
  }

  /** A print event whose id is not above the last processed one is skipped. */
  lemma StaleIdIgnored(items: seq<SourceState>, item: SourceState, id: int, printers: Option<seq<string>>, parse: string -> Option<PrintData>)
    requires IsPrintEvent(item) && ToLong(item.lastEvent.lastEventId) == Some(id)
    requires id <= Collect(items, printers, parse).lastProcessedEventId
    ensures Collect(items + [item], printers, parse) == Collect(items, printers, parse)
  {
    assert (items + [item])[..|items|] == items;
    assert Collect(items + [item], printers, parse) == Step(Collect(items, printers, parse), item, printers, parse);
  }

  /**
   * A fresh print event is marked processed whatever happens to its data:
   * the id is recorded even when the JSON does not parse or the printer is
   * not allowed, and a label is sent exactly when both succeed.
   */
  lemma FreshEventProcessed(items: seq<SourceState>, item: SourceState, id: int, printers: Option<seq<string>>, parse: string -> Option<PrintData>)
    requires Collect(items, printers, parse).end == Drained
    requires IsPrintEvent(item) && ToLong(item.lastEvent.lastEventId) == Some(id)
    requires id > Collect(items, printers, parse).lastProcessedEventId
    ensures var before := Collect(items, printers, parse);
            var after := Collect(items + [item], printers, parse);
            && after.lastProcessedEventId == id
            && after.handled == before.handled + [id]
            && after.end == Drained
            && (match parse(item.lastEvent.data)
                case Some(p) => after.sent == (if PrinterAllowed(printers, p.printer) then before.sent + [p] else before.sent)
                case None => after.sent == before.sent)
  {
    assert (items + [item])[..|items|] == items;
    assert Collect(items + [item], printers, parse) == Step(Collect(items, printers, parse), item, printers, parse);
  }

  /** A print event with a malformed id stops the loop, and nothing after it is looked at. */
  lemma {:induction false} BadIdStops(items: seq<SourceState>, rest: seq<SourceState>, printers: Option<seq<string>>, parse: string -> Option<PrintData>)
    requires Collect(items, printers, parse).end.BadEventId?
    ensures Collect(items + rest, printers, parse) == Collect(items, printers, parse)
    decreases |rest|
  {
    if rest != [] {
      var shorter := rest[..|rest| - 1];
      BadIdStops(items, shorter, printers, parse);
      assert (items + rest)[..|items + rest| - 1] == items + shorter;
    } else {
      assert items + rest == items;
    }
  }

  /** The loop only stops early on a print event whose id is not a Long. */
  lemma {:induction false} BadIdHasCause(items: seq<SourceState>, printers: Option<seq<string>>, parse: string -> Option<PrintData>)
    requires Collect(items, printers, parse).end.BadEventId?
    ensures exists i :: 0 <= i < |items| && IsPrintEvent(items[i]) && ToLong(items[i].lastEvent.lastEventId).None?
    decreases |items|
  {
    var prefix := items[..|items| - 1];
    if Collect(prefix, printers, parse).end.BadEventId? {
      BadIdHasCause(prefix, printers, parse);
      var i :| 0 <= i < |prefix| && IsPrintEvent(prefix[i]) && ToLong(prefix[i].lastEvent.lastEventId).None?;
      assert items[i] == prefix[i];
    } else {
      assert IsPrintEvent(items[|items| - 1]);
    }
  }

  /**
   * What `sseLoop` is left with once its `collect` returns: the fold of the
   * stream, whose handled ids rise, whose labels went to allowed printers,
   * and whose early end has a malformed id as its cause.
   */
  method CollectEvents(items: seq<SourceState>, printers: Option<seq<string>>, parse: string -> Option<PrintData>)
    returns (lastProcessedEventId: int, handled: seq<int>, sent: seq<PrintData>, end: LoopEnd)
    ensures LoopState(lastProcessedEventId, handled, sent, end) == Collect(items, printers, parse)
    ensures StrictlyIncreasing(handled)
    ensures lastProcessedEventId == (if handled == [] then -1 else handled[|handled| - 1])
    ensures forall p :: p in sent ==> PrinterAllowed(printers, p.printer)
    ensures end.BadEventId? ==> exists i :: 0 <= i < |items| && IsPrintEvent(items[i]) && ToLong(items[i].lastEvent.lastEventId).None?
  {
    lastProcessedEventId, handled, sent, end := CollectLoop(items, printers, parse);
    CollectOutcome(items, printers, parse, LoopState(lastProcessedEventId, handled, sent, end));
  }

  /**
   * The `collect` loop of `sseLoop` over the states received, from
   * `lastProcessedEventId = -1`: it stops at the first print event whose id
   * `toLong()` rejects.
   */
  method CollectLoop(items: seq<SourceState>, printers: Option<seq<string>>, parse: string -> Option<PrintData>)
    returns (lastProcessedEventId: int, handled: seq<int>, sent: seq<PrintData>, end: LoopEnd)
    ensures LoopState(lastProcessedEventId, handled, sent, end) == Collect(items, printers, parse)
  {
    lastProcessedEventId := -1;
    handled, sent, end := [], [], Drained;
    var i := 0;
    while i < |items| && end.Drained?
      invariant 0 <= i <= |items|
      invariant LoopState(lastProcessedEventId, handled, sent, end) == Collect(items[..i], printers, parse)
    {
      CollectOneMore(items, i, printers, parse);
      lastProcessedEventId, handled, sent, end := OnState(items[i], printers, parse, lastProcessedEventId, handled, sent);
      i := i + 1;
    }
    CollectStopsEarly(items, i, printers, parse);
  }

  /** Stopping at `i`, with every item seen or a bad id met, leaves the state of the whole run. */
  lemma CollectStopsEarly(items: seq<SourceState>, i: int, printers: Option<seq<string>>, parse: string -> Option<PrintData>)
    requires 0 <= i <= |items|
    requires i == |items| || Collect(items[..i], printers, parse).end.BadEventId?
    ensures Collect(items[..i], printers, parse) == Collect(items, printers, parse)
  {
    if i < |items| {
      BadIdStops(items[..i], items[i..], printers, parse);
      TakeDrop(items, i);
    } else {
      assert items[..i] == items;
    }
  }

  /**
   * The lambda passed to `collect`, on one state: a print event's id is
   * parsed (a failure ends the loop); a fresh one is recorded, and its label
   * sent when the data parses and the printer is allowed.
   */
  method OnState(item: SourceState, printers: Option<seq<string>>, parse: string -> Option<PrintData>,
                 lastId: int, handledBefore: seq<int>, sentBefore: seq<PrintData>)
    returns (lastProcessedEventId: int, handled: seq<int>, sent: seq<PrintData>, end: LoopEnd)
    ensures LoopState(lastProcessedEventId, handled, sent, end) == Step(LoopState(lastId, handledBefore, sentBefore, Drained), item, printers, parse)
  {
    lastProcessedEventId, handled, sent, end := lastId, handledBefore, sentBefore, Drained;
    if item.WithEvent? {
      var lastEvent := item.lastEvent;
      if lastEvent.eventType == "print" {
        var id := ToLong(lastEvent.lastEventId);
        if id.None? {
          end := BadEventId(lastEvent.lastEventId);
        } else if id.value > lastProcessedEventId {
          var printData := parse(lastEvent.data);
          if printData.Some? && PrinterAllowed(printers, printData.value.printer) {
            sent := sent + [printData.value];
          }
          lastProcessedEventId := id.value;
          handled := handled + [id.value];
        }
      }
    }
  }

  /** One more item is one more `Step`. */
  lemma CollectOneMore(items: seq<SourceState>, i: int, printers: Option<seq<string>>, parse: string -> Option<PrintData>)
    requires 0 <= i < |items|
    ensures Collect(items[..i + 1], printers, parse) == Step(Collect(items[..i], printers, parse), items[i], printers, parse)
  {
    assert items[..i + 1][..i] == items[..i];
  }

  /** What the loop's final state satisfies: `CollectSound` and `BadIdHasCause` spelled out. */
  lemma CollectOutcome(items: seq<SourceState>, printers: Option<seq<string>>, parse: string -> Option<PrintData>, r: LoopState)
    requires r == Collect(items, printers, parse)
    ensures StrictlyIncreasing(r.handled)
    ensures r.lastProcessedEventId == (if r.handled == [] then -1 else r.handled[|r.handled| - 1])
    ensures forall p :: p in r.sent ==> PrinterAllowed(printers, p.printer)
    ensures r.end.BadEventId? ==> exists i :: 0 <= i < |items| && IsPrintEvent(items[i]) && ToLong(items[i].lastEvent.lastEventId).None?
  {
    CollectSound(items, printers, parse);
    if r.end.BadEventId? {
      BadIdHasCause(items, printers, parse);
    }
  }
}
