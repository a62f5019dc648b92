/**
 * Two streaming line splitters: the command runner's `lineEmitter` (`packages/cli/src/lib/runner.ts`) and the events
 * filter `redactEventStream` (`packages/server/src/lib/docker-proxy.ts`).
 */
module LineStreams {
  import opened Text
  import opened Values

  // ---------------------------------------------------------------------------
  // Lines of a text
  // ---------------------------------------------------------------------------

  /** The lines a newline has already closed. */
  function Complete(text: string): seq<string> {
    var pieces := Split(text, '\n');
    pieces[..|pieces| - 1]
  }

  /** What follows the last newline. */
  function Rest(text: string): string {
    var pieces := Split(text, '\n');
    pieces[|pieces| - 1]
  }

  lemma CompleteAtNewline(line: string, text: string)
    requires '\n' !in line
    ensures Complete(line + "\n" + text) == [line] + Complete(text) && Rest(line + "\n" + text) == Rest(text)
  {
    hide Split;
    SplitAtSeparator(line, '\n', text);
  }

  lemma NothingComplete(text: string)
    requires '\n' !in text
    ensures Complete(text) == [] && Rest(text) == text
  {
    hide Split;
    SplitWithoutSeparator(text, '\n');
  }

  /** A text is its complete lines, each closed by a newline, then the rest. */
  lemma CompleteAndRest(text: string)
    ensures '\n' !in Rest(text) && forall k | 0 <= k < |Complete(text)| :: '\n' !in Complete(text)[k]
    ensures Join(Complete(text) + [Rest(text)], '\n') == text
  {
    hide Split;
    SplitPieces(text, '\n');
    assert Complete(text) + [Rest(text)] == Split(text, '\n');
  }

  /** Lines of a concatenation: only the seam matters. */
  lemma LinesOfConcat(a: string, b: string)
    ensures Complete(a + b) == Complete(a) + Complete(Rest(a) + b)
    ensures Rest(a + b) == Rest(Rest(a) + b)
    decreases |a|
  {
    hide Split, Complete, Rest;
    var i := IndexOf(a, '\n');
    if i < 0 {
      NothingComplete(a);
      assert [] + Complete(a + b) == Complete(a + b);
    } else {
      var line, tail := a[..i], a[i + 1..];
      assert a == line + "\n" + tail && a + b == line + "\n" + (tail + b);
      CompleteAtNewline(line, tail);
      CompleteAtNewline(line, tail + b);
      LinesOfConcat(tail, b);
      assert [line] + (Complete(tail) + Complete(Rest(tail) + b)) == [line] + Complete(tail) + Complete(Rest(tail) + b);
    }
  }

  function Flat(chunks: seq<string>): string {
    if chunks == [] then "" else Flat(chunks[..|chunks| - 1]) + chunks[|chunks| - 1]
  }

  // ---------------------------------------------------------------------------
  // lineEmitter
  // ---------------------------------------------------------------------------

  function NonEmpty(lines: seq<string>): seq<string> {
    if lines == [] then []
    else
      var last := lines[|lines| - 1];
      NonEmpty(lines[..|lines| - 1]) + (if last == "" then [] else [last])
  }

  lemma {:induction false} NonEmptyConcat(a: seq<string>, b: seq<string>)
    ensures NonEmpty(a + b) == NonEmpty(a) + NonEmpty(b)
  {
    if b == [] {
      assert a + b == a;
    } else {
      assert (a + b)[..|a + b| - 1] == a + b[..|b| - 1];
      NonEmptyConcat(a, b[..|b| - 1]);
    }
  }

  class LineEmitter {
    var buf: string
    var emitted: seq<string>

    /** All the text received. */
    ghost var received: string

    /** Where the chunks were cut has left no trace. */
    ghost predicate Valid()
      reads this
    {
      buf == Rest(received) && emitted == NonEmpty(Complete(received))
    }

    constructor ()
      ensures Valid() && received == ""
    {
      NothingComplete("");
      NothingNonEmpty();
      buf, emitted, received := "", [], "";
    }

    method Feed(chunk: string)
      requires Valid()
      modifies this
      ensures Valid() && received == old(received) + chunk
    {
      hide Complete, Rest, NonEmpty;
      received := received + chunk;
      LinesOfConcat(old(received), chunk);
      NonEmptyConcat(Complete(old(received)), Complete(old(buf) + chunk));
      Drain(chunk);
    }

    /** The loop over the newlines of the buffer. */
    method Drain(chunk: string)
      modifies this`buf, this`emitted
      ensures buf == Rest(old(buf) + chunk)
      ensures emitted == old(emitted) + NonEmpty(Complete(old(buf) + chunk))
    {
      hide Split, Complete, Rest, NonEmpty;
      buf := buf + chunk;
      ghost var whole, done := buf, [];
      NothingNonEmpty();
      var nl := IndexOf(buf, '\n');
      while nl >= 0
        invariant nl == IndexOf(buf, '\n')
        invariant Complete(whole) == done + Complete(buf) && Rest(whole) == Rest(buf)
        invariant emitted == old(emitted) + NonEmpty(done)
        decreases |buf|
      {
        var line := buf[..nl];
        assert buf == line + "\n" + buf[nl + 1..];
        CompleteAtNewline(line, buf[nl + 1..]);
        NonEmptyConcat(done, [line]);
        NonEmptyOfOne(line);
        if line != "" {
          emitted := emitted + [line];
        }
        done := done + [line];
        buf := buf[nl + 1..];
        nl := IndexOf(buf, '\n');
      }
      NothingComplete(buf);
      assert done + [] == done;
    }
  }

  /** The command runner: its emitter gets every chunk, and a newline when the process closes. */
  method EmitLines(chunks: seq<string>) returns (lines: seq<string>)
    ensures lines == NonEmpty(Split(Flat(chunks), '\n'))
  {
    hide Split, Complete, Rest, NonEmpty;
    var emitter := new LineEmitter();
    for i := 0 to |chunks|
      invariant fresh(emitter) && emitter.Valid() && emitter.received == Flat(chunks[..i])
    {
      assert chunks[..i + 1][..i] == chunks[..i];
      emitter.Feed(chunks[i]);
    }
    assert chunks[..|chunks|] == chunks;
    emitter.Feed("\n");
    ClosingNewline(Flat(chunks));
    lines := emitter.emitted;
  }

  lemma ClosingNewline(text: string)
    ensures Complete(text + "\n") == Split(text, '\n') && Rest(text + "\n") == ""
  {
    hide Split;
    SplitOfFinalNewline(text);
    var pieces := Split(text, '\n');
    assert (pieces + [""])[..|pieces|] == pieces;
  }

  lemma NothingNonEmpty()
    ensures NonEmpty([]) == []
  {}

  lemma NonEmptyOfOne(line: string)
    ensures NonEmpty([line]) == if line == "" then [] else [line]
  {
    assert [line][..0] == [];
  }

  // ---------------------------------------------------------------------------
  // Event redaction
  // ---------------------------------------------------------------------------

  const DENIED_LABEL_KEYS: set<string> := {
    "com.docker.compose.project.config_files", "com.docker.compose.project.working_dir" }

  const DENIED_LABEL_PREFIXES: seq<string> := ["desktop.docker.io/binds/"]

  predicate LabelDenied(key: string) {
    key in DENIED_LABEL_KEYS || exists i | 0 <= i < |DENIED_LABEL_PREFIXES| :: StartsWith(key, DENIED_LABEL_PREFIXES[i])
  }

  /** The two host-path labels Compose writes, and everything below the bind-source prefix. */
  lemma DeniedExactly(key: string)
    ensures LabelDenied(key) <==>
              || key == "com.docker.compose.project.config_files"
              || key == "com.docker.compose.project.working_dir"
              || exists rest :: key == "desktop.docker.io/binds/" + rest
  {
    assert DENIED_LABEL_PREFIXES[0] == "desktop.docker.io/binds/";
    if StartsWith(key, "desktop.docker.io/binds/") {
      assert key == "desktop.docker.io/binds/" + key[|"desktop.docker.io/binds/"|..];
    }
  }

  predicate HasDenied(entries: Entries) {
    exists i | 0 <= i < |entries| :: LabelDenied(entries[i].0)
  }

  function Allowed(entries: Entries): Entries {
    if entries == [] then []
    else
      var last := entries[|entries| - 1];
      Allowed(entries[..|entries| - 1]) + (if LabelDenied(last.0) then [] else [last])
  }

  function RedactLabels(labels: Value): Value {
    if !labels.Map? then labels
    else if !HasDenied(labels.entries) then labels
    else Map(Allowed(labels.entries))
  }

  /** `{ ...object, key: value }` for a key the object has: the position is kept. */
  function Put(entries: Entries, key: string, value: Value): Entries {
    if entries == [] then []
    else if entries[0].0 == key then [(key, value)] + entries[1..]
    else [entries[0]] + Put(entries[1..], key, value)
  }

  function RedactEvent(event: Value): Value {
    if !event.Map? then event
    else
      var actor := Field(event, "Actor");
      if !actor.Map? then event
      else
        var attributes := RedactLabels(Field(actor, "Attributes"));
        if attributes == Field(actor, "Attributes") then event
        else Map(Put(event.entries, "Actor", Map(Put(actor.entries, "Attributes", attributes))))
  }

  /** The label map an event discloses. */
  function LabelsOf(event: Value): Value {
    if !event.Map? || !Field(event, "Actor").Map? then Undefined else Field(Field(event, "Actor"), "Attributes")
  }

  predicate CarriesDeniedLabel(event: Value) {
    LabelsOf(event).Map? && HasDenied(LabelsOf(event).entries)
  }

  lemma {:induction false} LookupAfterPut(entries: Entries, key: string, value: Value, other: string)
    requires Lookup(entries, key) != Undefined
    ensures Lookup(Put(entries, key, value), other) == if other == key then value else Lookup(entries, other)
  {
    if entries[0].0 == key {
      assert ([(key, value)] + entries[1..])[1..] == entries[1..];
    } else {
      LookupAfterPut(entries[1..], key, value, other);
      assert ([entries[0]] + Put(entries[1..], key, value))[1..] == Put(entries[1..], key, value);
    }
  }

  lemma {:induction false} AllowedExactly(entries: Entries, e: (string, Value))
    ensures e in Allowed(entries) <==> e in entries && !LabelDenied(e.0)
  {
    hide LabelDenied;
    if entries != [] {
      var n := |entries| - 1;
      AllowedExactly(entries[..n], e);
      assert entries == entries[..n] + [entries[n]];
    }
  }

  lemma AllowedHasNoDenied(entries: Entries)
    ensures !HasDenied(Allowed(entries))
  {
    hide LabelDenied, Allowed;
    forall i | 0 <= i < |Allowed(entries)|
      ensures !LabelDenied(Allowed(entries)[i].0)
    {
      AllowedExactly(entries, Allowed(entries)[i]);
    }
  }

  lemma {:induction false} AllowedConcat(a: Entries, b: Entries)
    ensures Allowed(a + b) == Allowed(a) + Allowed(b)
  {
    hide LabelDenied;
    if b == [] {
      assert a + b == a;
    } else {
      assert (a + b)[..|a + b| - 1] == a + b[..|b| - 1];
      AllowedConcat(a, b[..|b| - 1]);
    }
  }

  /** Every label keeps its place: behind the kept ones before it, in front of the kept ones after it. */
  lemma AllowedInOrder(a: Entries, e: (string, Value), b: Entries)
    ensures Allowed(a + [e] + b) == Allowed(a) + (if LabelDenied(e.0) then [] else [e]) + Allowed(b)
  {
    hide LabelDenied;
    AllowedConcat(a + [e], b);
    AllowedConcat(a, [e]);
    assert [e][..0] == [];
  }

  /** The kept labels are the others in their order, and every field of the event and of its actor is kept. */
  lemma RedactionKeepsTheRest(event: Value)
    requires LabelsOf(event).Map?
    ensures LabelsOf(RedactEvent(event)) == Map(Allowed(LabelsOf(event).entries))
    ensures Keys(RedactEvent(event).entries) == Keys(event.entries)
    ensures Keys(Field(RedactEvent(event), "Actor").entries) == Keys(Field(event, "Actor").entries)
    ensures forall key | key != "Attributes" ::
              Field(Field(RedactEvent(event), "Actor"), key) == Field(Field(event, "Actor"), key)
  {
    hide LabelDenied, Allowed, Put, Lookup, HasDenied, Keys;
    var labels, actor := LabelsOf(event), Field(event, "Actor");
    var redacted := RedactLabels(labels);
    AllowedOfClean(labels.entries);
    var actor' := Map(Put(actor.entries, "Attributes", redacted));
    PutKeepsKeys(actor.entries, "Attributes", redacted);
    PutKeepsKeys(event.entries, "Actor", actor');
    LookupAfterPut(event.entries, "Actor", actor', "Actor");
    forall key { LookupAfterPut(actor.entries, "Attributes", redacted, key); }
  }

  lemma {:induction false} AllowedOfClean(entries: Entries)
    ensures !HasDenied(entries) ==> Allowed(entries) == entries
  {
    hide LabelDenied;
    if entries != [] && !HasDenied(entries) {
      var n := |entries| - 1;
      AllowedOfClean(entries[..n]);
      assert entries == entries[..n] + [entries[n]];
    }
  }

  lemma {:induction false} PutKeepsKeys(entries: Entries, key: string, value: Value)
    ensures Keys(Put(entries, key, value)) == Keys(entries)
  {
    if entries != [] {
      PutKeepsKeys(entries[1..], key, value);
      var put := Put(entries, key, value);
      assert Keys(entries) == [entries[0].0] + Keys(entries[1..]);
      assert put == [put[0]] + put[1..];
      assert Keys(put) == [put[0].0] + Keys(put[1..]);
    }
  }

  /** Redaction removes every denied label, keeps every other one, and every other field of actor and event. */
  lemma RedactionIsExact(event: Value)
    ensures !CarriesDeniedLabel(RedactEvent(event))
    ensures RedactEvent(event) == event <==> !CarriesDeniedLabel(event)
    ensures LabelsOf(event).Map? ==>
              && LabelsOf(RedactEvent(event)).Map?
              && forall e :: e in LabelsOf(RedactEvent(event)).entries <==>
                             e in LabelsOf(event).entries && !LabelDenied(e.0)
    ensures LabelsOf(event).Map? ==>
              forall key | key != "Attributes" ::
                Field(Field(RedactEvent(event), "Actor"), key) == Field(Field(event, "Actor"), key)
    ensures event.Map? ==>
              && RedactEvent(event).Map?
              && forall key | key != "Actor" :: Field(RedactEvent(event), key) == Field(event, key)
  {
    hide LabelDenied, Allowed, Put, Lookup, HasDenied;
    var labels := LabelsOf(event);
    if labels.Map? {
      RedactionKeepsTheRest(event);
      AllowedHasNoDenied(labels.entries);
      forall e { AllowedExactly(labels.entries, e); }
      NoneDenied(labels.entries);
      var actor := Field(event, "Actor");
      LookupAfterPut(actor.entries, "Attributes", RedactLabels(labels), "Attributes");
      var actor' := Map(Put(actor.entries, "Attributes", RedactLabels(labels)));
      forall key { LookupAfterPut(event.entries, "Actor", actor', key); }
    }
  }

  lemma NoneDenied(entries: Entries)
    ensures !HasDenied(entries) ==> forall e | e in entries :: !LabelDenied(e.0)
  {
    hide LabelDenied;
  }

  // ---------------------------------------------------------------------------
  // redactEventStream
  // ---------------------------------------------------------------------------

  /** What one line contributes: nothing when it is blank or not JSON, else the redacted payload. */
  function EventOf(line: string, parse: string -> Option<Value>): seq<Value> {
    if Trim(line) == "" then []
    else if parse(line).None? then []
    else [RedactEvent(parse(line).value)]
  }

  function EventsOf(lines: seq<string>, parse: string -> Option<Value>): seq<Value> {
    if lines == [] then [] else EventsOf(lines[..|lines| - 1], parse) + EventOf(lines[|lines| - 1], parse)
  }

  lemma {:induction false} EventsConcat(a: seq<string>, b: seq<string>, parse: string -> Option<Value>)
    ensures EventsOf(a + b, parse) == EventsOf(a, parse) + EventsOf(b, parse)
  {
    hide EventOf;
    if b == [] {
      assert a + b == a;
    } else {
      assert (a + b)[..|a + b| - 1] == a + b[..|b| - 1];
      EventsConcat(a, b[..|b| - 1], parse);
    }
  }

  lemma EventsOfOne(line: string, parse: string -> Option<Value>)
    ensures EventsOf([line], parse) == EventOf(line, parse) && EventsOf([], parse) == []
  {
    hide EventOf;
    assert [line][..0] == [];
    assert [] + EventOf(line, parse) == EventOf(line, parse);
  }

  /** A blank line and one that does not parse yield nothing; any other line yields its redacted payload. */
  lemma LineYields(line: string, parse: string -> Option<Value>)
    ensures Blank(line) || parse(line) == None ==> EventsOf([line], parse) == []
    ensures forall v :: !Blank(line) && parse(line) == Some(v) ==> EventsOf([line], parse) == [RedactEvent(v)]
  {
    hide Trim, Blank, RedactEvent;
    TrimIsBlank(line);
    EventsOfOne(line, parse);
  }

  /** The transform stream; `out` lists the payloads enqueued, each of which is written as one line. */
  class EventFilter {
    const parse: string -> Option<Value>
    var buffer: string
    var out: seq<Value>

    /** All the text received. */
    ghost var received: string

    ghost predicate Valid()
      reads this
    {
      buffer == Rest(received) && out == EventsOf(Complete(received), parse)
    }

    constructor (parse: string -> Option<Value>)
      ensures Valid() && this.parse == parse && received == ""
    {
      NothingComplete("");
      EventsOfOne("", parse);
      this.parse := parse;
      buffer, out, received := "", [], "";
    }

    method Emit(line: string)
      modifies this`out
      ensures out == old(out) + EventOf(line, parse)
    {
      if Trim(line) == "" { return; }
      var parsed := parse(line);
      if parsed.None? { return; }
      out := out + [RedactEvent(parsed.value)];
    }

    method Transform(chunk: string)
      requires Valid()
      modifies this
      ensures Valid() && received == old(received) + chunk
    {
      hide Complete, Rest, EventsOf;
      received := received + chunk;
      LinesOfConcat(old(received), chunk);
      EventsConcat(Complete(old(received)), Complete(old(buffer) + chunk), parse);
      Drain(chunk);
    }

    /** The loop over the newlines of the buffer. */
    method Drain(chunk: string)
      modifies this`buffer, this`out
      ensures buffer == Rest(old(buffer) + chunk)
      ensures out == old(out) + EventsOf(Complete(old(buffer) + chunk), parse)
    {
      hide Split, Complete, Rest, EventOf, EventsOf;
      buffer := buffer + chunk;
      ghost var whole, done := buffer, [];
      EventsOfOne("", parse);
      var newline := IndexOf(buffer, '\n');
      while newline != -1
        invariant newline == IndexOf(buffer, '\n')
        invariant Complete(whole) == done + Complete(buffer) && Rest(whole) == Rest(buffer)
        invariant out == old(out) + EventsOf(done, parse)
        decreases |buffer|
      {
        var line := buffer[..newline];
        assert buffer == line + "\n" + buffer[newline + 1..];
        CompleteAtNewline(line, buffer[newline + 1..]);
        EventsConcat(done, [line], parse);
        EventsOfOne(line, parse);
        Emit(line);
        done := done + [line];
        buffer := buffer[newline + 1..];
        newline := IndexOf(buffer, '\n');
      }
      NothingComplete(buffer);
      assert done + [] == done;
    }

    /** The end of the stream: what is left counts as a line. */
    method Flush()
      requires Valid()
      modifies this`buffer, this`out
      ensures buffer == "" && out == EventsOf(Split(received, '\n'), parse)
    {
      LastLine(received, parse);
      Emit(buffer);
      buffer := "";
    }
  }

  lemma LastLine(text: string, parse: string -> Option<Value>)
    ensures EventsOf(Complete(text), parse) + EventOf(Rest(text), parse) == EventsOf(Split(text, '\n'), parse)
  {
    hide Split, EventOf, EventsOf;
    assert Split(text, '\n') == Complete(text) + [Rest(text)];
    EventsConcat(Complete(text), [Rest(text)], parse);
    EventsOfOne(Rest(text), parse);
  }

  /** However the text is cut: the redacted parseable lines of the whole text, in order, and no denied label. */
  method RedactEventStream(chunks: seq<string>, parse: string -> Option<Value>) returns (events: seq<Value>)
    ensures events == EventsOf(Split(Flat(chunks), '\n'), parse)
    ensures forall k | 0 <= k < |events| :: !CarriesDeniedLabel(events[k])
  {
    hide Split, Complete, Rest, EventsOf, CarriesDeniedLabel;
    var filter := new EventFilter(parse);
    for i := 0 to |chunks|
      invariant fresh(filter) && filter.parse == parse && filter.Valid() && filter.received == Flat(chunks[..i])
    {
      assert chunks[..i + 1][..i] == chunks[..i];
      filter.Transform(chunks[i]);
    }
    assert chunks[..|chunks|] == chunks;
    filter.Flush();
    events := filter.out;
    NoEventLeaksALabel(Split(Flat(chunks), '\n'), parse);
  }

  lemma {:induction false} NoEventLeaksALabel(lines: seq<string>, parse: string -> Option<Value>)
    ensures forall k | 0 <= k < |EventsOf(lines, parse)| :: !CarriesDeniedLabel(EventsOf(lines, parse)[k])
  {
    hide RedactEvent, CarriesDeniedLabel;
    if lines != [] {
      var n := |lines| - 1;
      NoEventLeaksALabel(lines[..n], parse);
      if parse(lines[n]).Some? {
        RedactionIsExact(parse(lines[n]).value);
      }
    }
  }
}
