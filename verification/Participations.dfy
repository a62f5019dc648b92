/** The one reader of the `backup` block (`packages/shared/src/contracts.ts`), as a normal form. */
module Participations {
  import opened Text
  import opened Values

  datatype Hook = Hook(service: string, command: seq<string>)

  datatype Participation = Participation(id: string, preHook: Option<Hook>, postHook: Option<Hook>)

  function AsNonEmptyString(v: Value): Option<string> {
    if v.Str? && Trim(v.s) != "" then Some(Trim(v.s)) else None
  }

  function CommandWords(items: seq<Value>): (r: seq<string>)
    requires forall i | 0 <= i < |items| :: items[i].Str?
    ensures |r| == |items| && forall i | 0 <= i < |r| :: items[i] == Str(r[i])
  {
    seq(|items|, i requires 0 <= i < |items| => items[i].s)
  }

  /** A non-empty list of non-empty strings. */
  function AsCommand(v: Value): Option<seq<string>> {
    if !v.List? || v.items == [] then None
    else if exists i | 0 <= i < |v.items| :: !v.items[i].Str? || v.items[i].s == "" then None
    else Some(CommandWords(v.items))
  }

  function ReadHook(v: Value): Option<Hook> {
    if !v.Map? then None
    else
      var service, command := AsNonEmptyString(Field(v, "service")), AsCommand(Field(v, "command"));
      if service.None? || command.None? then None else Some(Hook(service.value, command.value))
  }

  /** What one list entry declares, when it is well formed. */
  function ReadEntry(entry: Value): Option<Participation> {
    if !entry.Map? then None
    else
      var id := AsNonEmptyString(Field(entry, "id"));
      var pre, post := ReadHook(Field(entry, "preHook")), ReadHook(Field(entry, "postHook"));
      if id.None? || (pre.None? && post.None?) then None else Some(Participation(id.value, pre, post))
  }

  predicate HasId(parts: seq<Participation>, id: string) {
    exists i | 0 <= i < |parts| :: parts[i].id == id
  }

  /** Well-formed entries in declaration order, the first of each id. */
  function ReadList(items: seq<Value>): seq<Participation> {
    if items == [] then []
    else
      var before := ReadList(items[..|items| - 1]);
      var p := ReadEntry(items[|items| - 1]);
      if p.None? || HasId(before, p.value.id) then before else before + [p.value]
  }

  /** The legacy single object, read as one participation named `default`. */
  function ReadLegacy(v: Value): seq<Participation>
    requires v.Map?
  {
    var pre, post := ReadHook(Field(v, "preHook")), ReadHook(Field(v, "postHook"));
    if pre.None? && post.None? then [] else [Participation("default", pre, post)]
  }

  function ReadParticipations(v: Value): seq<Participation> {
    if v.List? then ReadList(v.items) else if v.Map? then ReadLegacy(v) else []
  }

  method BackupParticipations(v: Value) returns (out: seq<Participation>)
    ensures out == ReadParticipations(v)
  {
    hide ReadHook, AsNonEmptyString;
    out := [];
    if v.List? {
      var items := v.items;
      var seen: set<string> := {};
      for i := 0 to |items|
        invariant out == ReadList(items[..i])
        invariant forall id :: id in seen <==> HasId(out, id)
      {
        assert items[..i + 1][..i] == items[..i];
        var entry := items[i];
        if !entry.Map? { continue; }
        var id := AsNonEmptyString(Field(entry, "id"));
        if id.None? || id.value in seen { continue; }
        var preHook, postHook := ReadHook(Field(entry, "preHook")), ReadHook(Field(entry, "postHook"));
        if preHook.None? && postHook.None? { continue; }
        seen := seen + {id.value};
        ghost var before := out;
        out := out + [Participation(id.value, preHook, postHook)];
        assert out[|before|].id == id.value;
        assert forall k | 0 <= k < |before| :: out[k] == before[k];
      }
      assert items[..|items|] == items;
      return;
    }
    if v.Map? {
      var preHook, postHook := ReadHook(Field(v, "preHook")), ReadHook(Field(v, "postHook"));
      if preHook.None? && postHook.None? { return; }
      out := [Participation("default", preHook, postHook)];
    }
  }

  // ---------------------------------------------------------------------------
  // What is read
  // ---------------------------------------------------------------------------

  /** A property holds the text, margins aside, and the text is not empty. */
  predicate HoldsText(v: Value, text: string) { v.Str? && Trim(v.s) == text && text != "" }

  /** A property holds the words of a command, none of them empty. */
  predicate HoldsCommand(v: Value, words: seq<string>) {
    && v.List? && words != [] && |v.items| == |words|
    && forall i | 0 <= i < |words| :: v.items[i] == Str(words[i]) && words[i] != ""
  }

  predicate HoldsHook(v: Value, hook: Hook) {
    v.Map? && HoldsText(Field(v, "service"), hook.service) && HoldsCommand(Field(v, "command"), hook.command)
  }

  /** The slot has the hook, or has none that is well formed. */
  ghost predicate HoldsSlot(v: Value, slot: Option<Hook>) {
    match slot
    case Some(hook) => HoldsHook(v, hook)
    case None => forall hook :: !HoldsHook(v, hook)
  }

  lemma CommandExactly(v: Value, words: seq<string>)
    ensures AsCommand(v) == Some(words) <==> HoldsCommand(v, words)
  {
    if HoldsCommand(v, words) {
      assert AsCommand(v).Some?;
      assert AsCommand(v).value == words;
    }
  }

  lemma HookExactly(v: Value, hook: Hook)
    ensures ReadHook(v) == Some(hook) <==> HoldsHook(v, hook)
  {
    hide AsCommand, HoldsCommand, Trim, Lookup;
    if v.Map? { CommandExactly(Field(v, "command"), hook.command); }
    if ReadHook(v).Some? { CommandExactly(Field(v, "command"), ReadHook(v).value.command); }
  }

  lemma SlotExactly(v: Value, slot: Option<Hook>)
    ensures ReadHook(v) == slot <==> HoldsSlot(v, slot)
  {
    hide ReadHook, HoldsHook;
    if slot.Some? { HookExactly(v, slot.value); }
    if ReadHook(v).Some? { HookExactly(v, ReadHook(v).value); }
    forall hook
      ensures ReadHook(v) == Some(hook) <==> HoldsHook(v, hook)
    {
      HookExactly(v, hook);
    }
  }

  /** A list entry is read exactly as what its `id`, `preHook` and `postHook` hold, one of the hooks at least. */
  lemma EntryExactly(entry: Value, p: Participation)
    ensures ReadEntry(entry) == Some(p) <==>
              && entry.Map? && HoldsText(Field(entry, "id"), p.id)
              && HoldsSlot(Field(entry, "preHook"), p.preHook) && HoldsSlot(Field(entry, "postHook"), p.postHook)
              && (p.preHook.Some? || p.postHook.Some?)
  {
    hide ReadHook, HoldsSlot, Trim, Lookup;
    if entry.Map? {
      SlotExactly(Field(entry, "preHook"), p.preHook);
      SlotExactly(Field(entry, "postHook"), p.postHook);
    }
  }

  /** The legacy object is read as what its two hooks hold, under the id `default`; other values are read as nothing. */
  lemma LegacyExactly(v: Value, pre: Option<Hook>, post: Option<Hook>)
    requires v.Map? && HoldsSlot(Field(v, "preHook"), pre) && HoldsSlot(Field(v, "postHook"), post)
    ensures ReadParticipations(v) ==
            if pre.Some? || post.Some? then [Participation("default", pre, post)] else []
  {
    hide ReadHook, HoldsSlot, Lookup;
    SlotExactly(Field(v, "preHook"), pre);
    SlotExactly(Field(v, "postHook"), post);
  }

  lemma OtherShapesAreEmpty(v: Value)
    requires !v.Map? && !v.List?
    ensures ReadParticipations(v) == []
  {}

  // ---------------------------------------------------------------------------
  // The normal form
  // ---------------------------------------------------------------------------

  predicate WellFormedHook(h: Hook) {
    && h.service != "" && Trimmed(h.service)
    && h.command != [] && forall i | 0 <= i < |h.command| :: h.command[i] != ""
  }

  predicate WellFormed(p: Participation) {
    && p.id != "" && Trimmed(p.id)
    && (p.preHook.Some? || p.postHook.Some?)
    && (p.preHook.Some? ==> WellFormedHook(p.preHook.value))
    && (p.postHook.Some? ==> WellFormedHook(p.postHook.value))
  }

  ghost predicate Normal(parts: seq<Participation>) {
    && (forall i | 0 <= i < |parts| :: WellFormed(parts[i]))
    && (forall i, j | 0 <= i < j < |parts| :: parts[i].id != parts[j].id)
  }

  lemma HookIsWellFormed(v: Value)
    ensures ReadHook(v).Some? ==> WellFormedHook(ReadHook(v).value)
  {
    hide Trim, Lookup;
  }

  lemma EntryIsWellFormed(entry: Value)
    ensures ReadEntry(entry).Some? ==> WellFormed(ReadEntry(entry).value)
  {
    hide ReadHook, Trim, WellFormedHook, Lookup;
    if entry.Map? {
      HookIsWellFormed(Field(entry, "preHook"));
      HookIsWellFormed(Field(entry, "postHook"));
    }
  }

  /** Unique trimmed non-empty ids, each with a well-formed hook, for either shape. */
  lemma OutputIsNormal(v: Value)
    ensures Normal(ReadParticipations(v))
  {
    hide ReadHook, WellFormedHook, Trimmed;
    if v.List? {
      ListIsNormal(v.items);
    } else if v.Map? {
      HookIsWellFormed(Field(v, "preHook"));
      HookIsWellFormed(Field(v, "postHook"));
      DefaultIsTrimmed();
    }
  }

  lemma DefaultIsTrimmed()
    ensures Trimmed("default")
  {}

  lemma {:induction false} ListIsNormal(items: seq<Value>)
    ensures Normal(ReadList(items))
  {
    hide ReadEntry, WellFormed;
    if items != [] {
      ListIsNormal(items[..|items| - 1]);
      EntryIsWellFormed(items[|items| - 1]);
    }
  }

  /** `items[k]` is the first well-formed entry with its id. */
  ghost predicate IsFirstOfItsId(items: seq<Value>, k: nat) {
    && k < |items| && ReadEntry(items[k]).Some?
    && forall j | 0 <= j < k && ReadEntry(items[j]).Some? ::
         ReadEntry(items[j]).value.id != ReadEntry(items[k]).value.id
  }

  /** What exactly the first entries of their ids among the first `n` declare, in declaration order. */
  ghost function FirstOfEachId(items: seq<Value>, n: nat): seq<Participation>
    requires n <= |items|
  {
    if n == 0 then []
    else FirstOfEachId(items, n - 1) + (if IsFirstOfItsId(items, n - 1) then [ReadEntry(items[n - 1]).value] else [])
  }

  lemma FirstExactly(items: seq<Value>, n: nat)
    requires n < |items|
    ensures var p := ReadEntry(items[n]);
            IsFirstOfItsId(items, n) <==> p.Some? && !HasId(ReadList(items[..n]), p.value.id)
  {
    hide ReadEntry, HasId, ReadList;
    var p := ReadEntry(items[n]);
    if p.Some? {
      FirstWitness(items[..n], p.value.id);
      assert forall j | 0 <= j < n :: items[..n][j] == items[j];
    }
  }

  /** The output keeps declaration order and the first well-formed entry of each id, and nothing else. */
  lemma {:induction false} KeepsFirstOfEachId(items: seq<Value>, n: nat)
    requires n <= |items|
    ensures ReadList(items[..n]) == FirstOfEachId(items, n)
  {
    hide ReadEntry, IsFirstOfItsId, HasId;
    if n > 0 {
      KeepsFirstOfEachId(items, n - 1);
      FirstExactly(items, n - 1);
      assert items[..n][..n - 1] == items[..n - 1];
    }
  }

  /** An id is in the output exactly when some well-formed entry declares it. */
  lemma {:induction false} FirstWitness(items: seq<Value>, id: string)
    ensures HasId(ReadList(items), id) <==>
            exists j | 0 <= j < |items| && ReadEntry(items[j]).Some? :: ReadEntry(items[j]).value.id == id
  {
    hide ReadEntry;
    if items != [] {
      var n := |items| - 1;
      FirstWitness(items[..n], id);
      var before, all := ReadList(items[..n]), ReadList(items);
      var p := ReadEntry(items[n]);
      assert forall i | 0 <= i < |before| :: all[i] == before[i];
      assert forall j | 0 <= j < n :: items[..n][j] == items[j];
      if HasId(before, id) {
        var i :| 0 <= i < |before| && before[i].id == id;
        assert all[i].id == id;
      } else if p.Some? && p.value.id == id {
        assert all[|before|].id == id;
      }
    }
  }

  // ---------------------------------------------------------------------------
  // Reading the output again
  // ---------------------------------------------------------------------------

  function WriteWords(words: seq<string>): (r: seq<Value>)
    ensures |r| == |words| && forall i | 0 <= i < |r| :: r[i] == Str(words[i])
  {
    seq(|words|, i requires 0 <= i < |words| => Str(words[i]))
  }

  /** The object form of a hook; an absent hook is an absent property. */
  function WriteHook(h: Option<Hook>): Value {
    if h.None? then Undefined
    else Map([("service", Str(h.value.service)), ("command", List(WriteWords(h.value.command)))])
  }

  /** A property in front of others; an undefined one is left out. */
  function WithProperty(key: string, value: Value, rest: Entries): Entries {
    if value == Undefined then rest else [(key, value)] + rest
  }

  function WriteEntry(p: Participation): Value {
    var hooks := WithProperty("preHook", WriteHook(p.preHook), WithProperty("postHook", WriteHook(p.postHook), []));
    Map(WithProperty("id", Str(p.id), hooks))
  }

  function WriteList(parts: seq<Participation>): (r: seq<Value>)
    ensures |r| == |parts| && forall i | 0 <= i < |r| :: r[i] == WriteEntry(parts[i])
  {
    seq(|parts|, i requires 0 <= i < |parts| => WriteEntry(parts[i]))
  }

  lemma HookReadsBack(h: Option<Hook>)
    requires h.Some? ==> WellFormedHook(h.value)
    ensures ReadHook(WriteHook(h)) == h
  {
    hide Trim, Trimmed;
    if h.Some? {
      TrimOfTrimmed(h.value.service);
      var service, command := ("service", Str(h.value.service)), ("command", List(WriteWords(h.value.command)));
      assert [service, command] == [service] + [command] && [command] == [command] + [];
      LookupFirst(service, [command], "service");
      LookupFirst(service, [command], "command");
      LookupFirst(command, [], "command");
      assert CommandWords(WriteWords(h.value.command)) == h.value.command;
    }
  }

  lemma LookupFirst(entry: (string, Value), rest: Entries, key: string)
    ensures Lookup([entry] + rest, key) == if entry.0 == key then entry.1 else Lookup(rest, key)
  {
    assert ([entry] + rest)[1..] == rest;
  }

  lemma LookupProperty(key: string, value: Value, rest: Entries, other: string)
    ensures Lookup(WithProperty(key, value, rest), other) ==
            if other == key && value != Undefined then value else Lookup(rest, other)
  {
    LookupFirst((key, value), rest, other);
  }

  lemma EntryFields(p: Participation)
    ensures var v := WriteEntry(p);
            && Field(v, "id") == Str(p.id)
            && Field(v, "preHook") == WriteHook(p.preHook)
            && Field(v, "postHook") == WriteHook(p.postHook)
  {
    hide WriteHook, WithProperty, Lookup;
    var pre, post := WriteHook(p.preHook), WriteHook(p.postHook);
    var last := WithProperty("postHook", post, []);
    var hooks := WithProperty("preHook", pre, last);
    LookupProperty("id", Str(p.id), hooks, "id");
    LookupProperty("id", Str(p.id), hooks, "preHook");
    LookupProperty("id", Str(p.id), hooks, "postHook");
    LookupProperty("preHook", pre, last, "preHook");
    LookupProperty("preHook", pre, last, "postHook");
    LookupProperty("postHook", post, [], "preHook");
    LookupProperty("postHook", post, [], "postHook");
    LookupNothing("preHook");
    LookupNothing("postHook");
  }

  lemma LookupNothing(key: string)
    ensures Lookup([], key) == Undefined
  {}

  lemma EntryReadsBack(p: Participation)
    requires WellFormed(p)
    ensures ReadEntry(WriteEntry(p)) == Some(p)
  {
    hide Trim, Trimmed, ReadHook, WriteHook, WellFormedHook, Lookup;
    EntryFields(p);
    TrimOfTrimmed(p.id);
    HookReadsBack(p.preHook);
    HookReadsBack(p.postHook);
  }

  lemma {:induction false} NormalReadsBack(parts: seq<Participation>)
    requires Normal(parts)
    ensures ReadList(WriteList(parts)) == parts
  {
    hide ReadEntry, WriteEntry, WellFormed;
    if parts != [] {
      var n := |parts| - 1;
      NormalReadsBack(parts[..n]);
      assert WriteList(parts)[..n] == WriteList(parts[..n]);
      EntryReadsBack(parts[n]);
      assert parts == parts[..n] + [parts[n]];
    }
  }

  /** Reading is idempotent: the output, written as a list, reads as itself, whichever shape it came from. */
  lemma ReadingAgainChangesNothing(v: Value)
    ensures ReadParticipations(List(WriteList(ReadParticipations(v)))) == ReadParticipations(v)
  {
    OutputIsNormal(v);
    NormalReadsBack(ReadParticipations(v));
  }
}
