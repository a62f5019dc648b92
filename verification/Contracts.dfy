/** Contract references and the grants they imply (`packages/shared/src/contracts.ts`). */
module Contracts {
  import opened Text

  datatype GrantKind = AppsData | ContainerLogs | RestoreStaging

  /** A table row: identity and the privilege its provider role implies. */
  datatype Contract = Contract(id: string, version: nat, grant: Option<GrantKind>)

  type Table = seq<Contract>

  /** `Number(text)` when that is an integer; the only reading assumed of it is that of plain decimal numerals. */
  type IntegerReader = string -> Option<int>

  ghost predicate ReadsNumerals(number: IntegerReader) {
    forall n: nat :: number(Decimal(n)) == Some(n as int)
  }

  function FormatContractRef(def: Contract): string {
    def.id + "@" + Decimal(def.version)
  }

  function Find(table: Table, id: string, version: int): Option<Contract> {
    if table == [] then None
    else if table[0].id == id && table[0].version == version then Some(table[0])
    else Find(table[1..], id, version)
  }

  function ParseContractRef(raw: string, table: Table, number: IntegerReader): Option<Contract> {
    var at := LastIndexOf(raw, '@');
    if at <= 0 || at == |raw| - 1 then None
    else
      var version := number(raw[at + 1..]);
      if version.None? then None else Find(table, raw[..at], version.value)
  }

  lemma {:induction false} FindMember(table: Table, def: Contract)
    requires def in table
    ensures var found := Find(table, def.id, def.version);
            found.Some? && found.value in table && found.value.id == def.id && found.value.version == def.version
  {
    if table[0] != def {
      assert table == [table[0]] + table[1..];
      FindMember(table[1..], def);
    }
  }

  /** A printed reference resolves to the first row with its id and version, exactly when the id is not empty. */
  lemma PrintedRefResolves(def: Contract, table: Table, number: IntegerReader)
    requires def in table && ReadsNumerals(number)
    ensures var found := ParseContractRef(FormatContractRef(def), table, number);
            && (found.Some? <==> def.id != "")
            && (found.Some? ==> found.value in table && found.value.id == def.id && found.value.version == def.version)
  {
    hide Decimal, LastIndexOf;
    var numeral := Decimal(def.version);
    var raw := FormatContractRef(def);
    assert raw == (def.id + "@") + numeral;
    assert '@' !in numeral;
    LastIndexOfAt(def.id + "@", '@', numeral);
    assert raw[..|def.id|] == def.id && raw[|def.id| + 1..] == numeral;
    FindMember(table, def);
  }

  /** A row without an id, printed and read back. */
  lemma NamelessContractIsLost(number: IntegerReader)
    requires ReadsNumerals(number)
    ensures var def := Contract("", 1, None); ParseContractRef(FormatContractRef(def), [def], number) == None
  {
    hide ParseContractRef, FormatContractRef, ReadsNumerals;
    var def := Contract("", 1, None);
    assert def in [def];
    PrintedRefResolves(def, [def], number);
  }

  /** A reference as written: an id, an at sign, and version text without one. */
  ghost predicate Writes(raw: string, id: string, text: string) {
    raw == id + "@" + text && '@' !in text && id != "" && text != ""
  }

  /** The first row of its id and version. */
  ghost predicate IsFirstRow(table: Table, k: int, def: Contract) {
    && 0 <= k < |table| && table[k] == def
    && forall j | 0 <= j < k :: table[j].id != def.id || table[j].version != def.version
  }

  lemma {:induction false} FindsFirstRow(table: Table, id: string, version: int)
    ensures var found := Find(table, id, version);
            if found.None? then forall j | 0 <= j < |table| :: table[j].id != id || table[j].version != version
            else found.value.id == id && found.value.version == version && exists k :: IsFirstRow(table, k, found.value)
  {
    if table != [] {
      FindsFirstRow(table[1..], id, version);
      assert forall j | 0 < j < |table| :: table[j] == table[1..][j - 1];
      if table[0].id == id && table[0].version == version {
        assert IsFirstRow(table, 0, table[0]);
      } else if Find(table[1..], id, version).Some? {
        var def := Find(table[1..], id, version).value;
        var k :| IsFirstRow(table[1..], k, def);
        assert IsFirstRow(table, k + 1, def);
      }
    }
  }

  lemma FirstRowIsUnique(table: Table, j: int, k: int, d: Contract, e: Contract)
    requires IsFirstRow(table, j, d) && IsFirstRow(table, k, e) && d.id == e.id && d.version == e.version
    ensures d == e
  {}

  /** The text splits as a reference in at most one way: at its last at sign. */
  lemma WritesOnce(raw: string, id: string, text: string)
    requires Writes(raw, id, text)
    ensures var at := LastIndexOf(raw, '@'); at == |id| && raw[..at] == id && raw[at + 1..] == text && at < |raw| - 1
  {
    hide LastIndexOf;
    assert raw == (id + "@") + text;
    LastIndexOfAt(id + "@", '@', text);
  }

  /**
   * A reference resolves to a row exactly when it writes the row's id and, behind its last at sign, text that reads as
   * the row's version; of several such rows it is the first.
   */
  lemma ResolvesExactly(raw: string, table: Table, number: IntegerReader, def: Contract)
    ensures ParseContractRef(raw, table, number) == Some(def) <==>
            exists text, k ::
              Writes(raw, def.id, text) && number(text) == Some(def.version as int) && IsFirstRow(table, k, def)
  {
    hide LastIndexOf, Find, IsFirstRow;
    if ParseContractRef(raw, table, number) == Some(def) {
      var at := LastIndexOf(raw, '@');
      var text := raw[at + 1..];
      FindsFirstRow(table, raw[..at], number(text).value);
      assert raw == raw[..at] + "@" + text;
      assert Writes(raw, def.id, text);
    }
    if text, k :| Writes(raw, def.id, text) && number(text) == Some(def.version as int) && IsFirstRow(table, k, def) {
      WritesOnce(raw, def.id, text);
      FindsFirstRow(table, def.id, def.version);
      RowIsThere(table, k, def);
      var found := Find(table, def.id, def.version).value;
      var j :| IsFirstRow(table, j, found);
      FirstRowIsUnique(table, j, k, found, def);
    }
  }

  lemma RowIsThere(table: Table, k: int, def: Contract)
    requires IsFirstRow(table, k, def)
    ensures exists j | 0 <= j < |table| :: table[j].id == def.id && table[j].version == def.version
  {}

  // ---------------------------------------------------------------------------
  // Grants
  // ---------------------------------------------------------------------------

  /** The kind a reference implies under a table, when it resolves to a row with a grant. */
  function LiveKind(ref: string, table: Table, number: IntegerReader): Option<GrantKind> {
    var def := ParseContractRef(ref, table, number);
    if def.None? then None else def.value.grant
  }

  function AddOnce(kinds: seq<GrantKind>, kind: GrantKind): seq<GrantKind> {
    if kind in kinds then kinds else kinds + [kind]
  }

  /** The live kinds of the references, each once, in order of first appearance. */
  function GrantKindsFor(refs: seq<string>, table: Table, number: IntegerReader): seq<GrantKind> {
    if refs == [] then []
    else
      var before := GrantKindsFor(refs[..|refs| - 1], table, number);
      var kind := LiveKind(refs[|refs| - 1], table, number);
      if kind.None? then before else AddOnce(before, kind.value)
  }

  method ComputeGrantKinds(refs: Option<seq<string>>, table: Table, number: IntegerReader) returns (out: seq<GrantKind>)
    ensures out == GrantKindsFor(OrEmpty(refs), table, number)
  {
    out := [];
    var list := OrEmpty(refs);
    for i := 0 to |list|
      invariant out == GrantKindsFor(list[..i], table, number)
    {
      assert list[..i + 1][..i] == list[..i];
      var kind := LiveKind(list[i], table, number);
      if kind.Some? && kind.value !in out {
        out := out + [kind.value];
      }
    }
    assert list[..|list|] == list;
  }

  function OrEmpty<T>(xs: Option<seq<T>>): seq<T> { if xs.None? then [] else xs.value }

  function AsSet(kinds: seq<GrantKind>): set<GrantKind> { set k | k in kinds }

  datatype Widened = Widened(ref: string, kind: GrantKind)

  /** The references whose live kind was not recorded, in order, printed canonically. */
  function WidenedBy(refs: seq<string>, recorded: set<GrantKind>, table: Table, number: IntegerReader): seq<Widened> {
    if refs == [] then []
    else
      var before := WidenedBy(refs[..|refs| - 1], recorded, table, number);
      var def := ParseContractRef(refs[|refs| - 1], table, number);
      if def.Some? && def.value.grant.Some? && def.value.grant.value !in recorded
      then before + [Widened(FormatContractRef(def.value), def.value.grant.value)]
      else before
  }

  function Restrict(kinds: seq<GrantKind>, recorded: set<GrantKind>): seq<GrantKind> {
    if kinds == [] then []
    else
      var last := kinds[|kinds| - 1];
      Restrict(kinds[..|kinds| - 1], recorded) + (if last in recorded then [last] else [])
  }

  /** The privileges held: the live kinds of the references, in order, without those that were not recorded. */
  function Granted(refs: seq<string>, recorded: set<GrantKind>, table: Table, number: IntegerReader): seq<GrantKind> {
    Restrict(GrantKindsFor(refs, table, number), recorded)
  }

  lemma {:induction false} RestrictMembers(kinds: seq<GrantKind>, recorded: set<GrantKind>, k: GrantKind)
    ensures k in Restrict(kinds, recorded) <==> k in kinds && k in recorded
  {
    if kinds != [] {
      RestrictMembers(kinds[..|kinds| - 1], recorded, k);
      assert kinds == kinds[..|kinds| - 1] + [kinds[|kinds| - 1]];
    }
  }

  lemma RestrictAddOnce(kinds: seq<GrantKind>, recorded: set<GrantKind>, kind: GrantKind)
    ensures Restrict(AddOnce(kinds, kind), recorded) ==
            if kind in recorded then AddOnce(Restrict(kinds, recorded), kind) else Restrict(kinds, recorded)
  {
    RestrictMembers(kinds, recorded, kind);
    if kind !in kinds {
      assert (kinds + [kind])[..|kinds|] == kinds;
    }
  }

  method ResolveGrantKinds(refs: Option<seq<string>>, recorded: Option<seq<GrantKind>>, table: Table,
                           number: IntegerReader)
    returns (kinds: seq<GrantKind>, widened: seq<Widened>)
    ensures var consented := AsSet(OrEmpty(recorded));
            && kinds == Granted(OrEmpty(refs), consented, table, number)
            && widened == WidenedBy(OrEmpty(refs), consented, table, number)
    ensures forall k :: k in kinds <==>
              && k in OrEmpty(recorded)
              && (exists ref | ref in OrEmpty(refs) :: Implies(ref, table, number, k))
  {
    hide Implies, ParseContractRef;
    var consentedKinds := AsSet(OrEmpty(recorded));
    kinds, widened := [], [];
    var list := OrEmpty(refs);
    for i := 0 to |list|
      invariant kinds == Granted(list[..i], consentedKinds, table, number)
      invariant widened == WidenedBy(list[..i], consentedKinds, table, number)
    {
      assert list[..i + 1][..i] == list[..i];
      var def := ParseContractRef(list[i], table, number);
      if def.None? || def.value.grant.None? { continue; }
      var kind := def.value.grant.value;
      RestrictAddOnce(GrantKindsFor(list[..i], table, number), consentedKinds, kind);
      if kind in consentedKinds {
        if kind !in kinds {
          kinds := kinds + [kind];
        }
      } else {
        widened := widened + [Widened(FormatContractRef(def.value), kind)];
      }
    }
    assert list[..|list|] == list;
    forall k
      ensures k in kinds <==> k in consentedKinds && exists ref | ref in list :: Implies(ref, table, number, k)
    {
      EveryLiveKindIsHeldOrReported(list, consentedKinds, table, number, k);
      KindsExactly(list, table, number, k);
    }
  }

  // ---------------------------------------------------------------------------
  // What the resolution means
  // ---------------------------------------------------------------------------

  lemma {:induction false} GrantKindsMembers(refs: seq<string>, table: Table, number: IntegerReader, k: GrantKind)
    ensures k in GrantKindsFor(refs, table, number) <==>
            exists i | 0 <= i < |refs| :: LiveKind(refs[i], table, number) == Some(k)
  {
    hide ParseContractRef, LiveKind;
    if refs != [] {
      var n := |refs| - 1;
      GrantKindsMembers(refs[..n], table, number, k);
      if i :| 0 <= i < |refs| && LiveKind(refs[i], table, number) == Some(k) {
        assert i < n ==> refs[..n][i] == refs[i];
      }
    }
  }

  /** `refs[k]` is the first reference that implies its kind. */
  ghost predicate IntroducesKind(refs: seq<string>, table: Table, number: IntegerReader, k: nat) {
    && k < |refs| && LiveKind(refs[k], table, number).Some?
    && forall j | 0 <= j < k :: LiveKind(refs[j], table, number) != LiveKind(refs[k], table, number)
  }

  /** The kinds of exactly the introducing references among the first `n`, in order. */
  ghost function KindsIntroduced(refs: seq<string>, table: Table, number: IntegerReader, n: nat): seq<GrantKind>
    requires n <= |refs|
  {
    if n == 0 then []
    else
      KindsIntroduced(refs, table, number, n - 1) +
      (if IntroducesKind(refs, table, number, n - 1) then [LiveKind(refs[n - 1], table, number).value] else [])
  }

  lemma IntroducesExactly(refs: seq<string>, table: Table, number: IntegerReader, n: nat)
    requires n < |refs|
    ensures var kind := LiveKind(refs[n], table, number);
            IntroducesKind(refs, table, number, n) <==>
            kind.Some? && kind.value !in GrantKindsFor(refs[..n], table, number)
  {
    hide LiveKind, GrantKindsFor;
    var kind := LiveKind(refs[n], table, number);
    if kind.Some? {
      GrantKindsMembers(refs[..n], table, number, kind.value);
      assert forall j | 0 <= j < n :: refs[..n][j] == refs[j];
    }
  }

  /** Each kind once, in the order of the first reference that implies it. */
  lemma {:induction false} KindsInOrderOfFirstReference(refs: seq<string>, table: Table, number: IntegerReader, n: nat)
    requires n <= |refs|
    ensures GrantKindsFor(refs[..n], table, number) == KindsIntroduced(refs, table, number, n)
  {
    hide LiveKind, IntroducesKind;
    if n > 0 {
      KindsInOrderOfFirstReference(refs, table, number, n - 1);
      IntroducesExactly(refs, table, number, n - 1);
      assert refs[..n][..n - 1] == refs[..n - 1];
    }
  }

  lemma {:induction false} WidenedMembers(refs: seq<string>, recorded: set<GrantKind>, table: Table,
                                          number: IntegerReader, k: GrantKind)
    ensures (exists w :: w in WidenedBy(refs, recorded, table, number) && w.kind == k) <==>
            k !in recorded && exists i | 0 <= i < |refs| :: LiveKind(refs[i], table, number) == Some(k)
  {
    hide ParseContractRef, FormatContractRef;
    if refs != [] {
      var n := |refs| - 1;
      WidenedMembers(refs[..n], recorded, table, number, k);
      var before, all := WidenedBy(refs[..n], recorded, table, number), WidenedBy(refs, recorded, table, number);
      var def := ParseContractRef(refs[n], table, number);
      assert all == before || all == before + [Widened(FormatContractRef(def.value), def.value.grant.value)];
      if w :| w in before && w.kind == k { assert w in all; }
      if all != before && def.value.grant.value == k {
        assert all[|before|] in all;
        assert LiveKind(refs[n], table, number) == Some(k);
      }
      if i :| 0 <= i < |refs| && LiveKind(refs[i], table, number) == Some(k) {
        assert i < n ==> refs[..n][i] == refs[i];
      }
    }
  }

  /** The reference writes the id and the version of a row, the first such one, that implies the kind. */
  ghost predicate Implies(ref: string, table: Table, number: IntegerReader, kind: GrantKind) {
    exists def, text, j :: RowImplies(ref, table, number, kind, def, text, j)
  }

  ghost predicate RowImplies(ref: string, table: Table, number: IntegerReader, kind: GrantKind, def: Contract,
                             text: string, j: int)
  {
    && Writes(ref, def.id, text) && number(text) == Some(def.version as int)
    && IsFirstRow(table, j, def) && def.grant == Some(kind)
  }

  lemma LiveKindExactly(ref: string, table: Table, number: IntegerReader, kind: GrantKind)
    ensures LiveKind(ref, table, number) == Some(kind) <==> Implies(ref, table, number, kind)
  {
    hide ParseContractRef, Writes, IsFirstRow;
    if LiveKind(ref, table, number) == Some(kind) {
      var def := ParseContractRef(ref, table, number).value;
      ResolvesExactly(ref, table, number, def);
      var text, j :| Writes(ref, def.id, text) && number(text) == Some(def.version as int) && IsFirstRow(table, j, def);
      assert RowImplies(ref, table, number, kind, def, text, j);
    }
    if def, text, j :| RowImplies(ref, table, number, kind, def, text, j) {
      ResolvesExactly(ref, table, number, def);
    }
  }

  /** The kinds are those that some reference implies. */
  lemma KindsExactly(refs: seq<string>, table: Table, number: IntegerReader, kind: GrantKind)
    ensures kind in GrantKindsFor(refs, table, number) <==>
            exists ref | ref in refs :: Implies(ref, table, number, kind)
  {
    hide LiveKind, Implies, GrantKindsFor;
    GrantKindsMembers(refs, table, number, kind);
    if i :| 0 <= i < |refs| && LiveKind(refs[i], table, number) == Some(kind) {
      LiveKindExactly(refs[i], table, number, kind);
    }
    if ref :| ref in refs && Implies(ref, table, number, kind) {
      LiveKindExactly(ref, table, number, kind);
      var i :| 0 <= i < |refs| && refs[i] == ref;
    }
  }

  /** Each live kind is either held or reported as widened, never both, and nothing else is held. */
  lemma EveryLiveKindIsHeldOrReported(refs: seq<string>, recorded: set<GrantKind>, table: Table, number: IntegerReader,
                                      k: GrantKind)
    ensures k in Granted(refs, recorded, table, number) <==> k in GrantKindsFor(refs, table, number) && k in recorded
    ensures (exists w :: w in WidenedBy(refs, recorded, table, number) && w.kind == k) <==>
            k in GrantKindsFor(refs, table, number) && k !in recorded
  {
    hide GrantKindsFor, WidenedBy, LiveKind;
    RestrictMembers(GrantKindsFor(refs, table, number), recorded, k);
    GrantKindsMembers(refs, table, number, k);
    WidenedMembers(refs, recorded, table, number, k);
  }

  /** What is reported as widened, reference by reference: the row's printed form and its unrecorded kind. */
  lemma {:induction false} WidenedExactly(refs: seq<string>, recorded: set<GrantKind>, table: Table,
                                          number: IntegerReader, w: Widened)
    ensures w in WidenedBy(refs, recorded, table, number) <==>
            exists ref, def | ref in refs && def in table ::
              && ParseContractRef(ref, table, number) == Some(def)
              && w == Widened(def.id + "@" + Decimal(def.version), w.kind) && def.grant == Some(w.kind)
              && w.kind !in recorded
  {
    hide ParseContractRef, Decimal;
    if refs != [] {
      var n := |refs| - 1;
      WidenedExactly(refs[..n], recorded, table, number, w);
      assert refs == refs[..n] + [refs[n]];
      var def := ParseContractRef(refs[n], table, number);
      if def.Some? { ResolvedIsInTable(refs[n], table, number, def.value); }
    }
  }

  lemma ResolvedIsInTable(ref: string, table: Table, number: IntegerReader, def: Contract)
    requires ParseContractRef(ref, table, number) == Some(def)
    ensures def in table
  {
    ResolvesExactly(ref, table, number, def);
  }

  /** Reports come in the order of the references, one for each. */
  lemma {:induction false} WidenedOfConcat(a: seq<string>, b: seq<string>, recorded: set<GrantKind>, table: Table,
                                           number: IntegerReader)
    ensures WidenedBy(a + b, recorded, table, number) ==
            WidenedBy(a, recorded, table, number) + WidenedBy(b, recorded, table, number)
  {
    hide ParseContractRef, FormatContractRef;
    if b == [] {
      assert a + b == a;
    } else {
      var n := |b| - 1;
      assert (a + b)[..|a + b| - 1] == a + b[..n];
      WidenedOfConcat(a, b[..n], recorded, table, number);
    }
  }

  lemma {:induction false} RestrictToAll(kinds: seq<GrantKind>, recorded: set<GrantKind>)
    requires forall k | k in kinds :: k in recorded
    ensures Restrict(kinds, recorded) == kinds
  {
    if kinds != [] {
      var n := |kinds| - 1;
      assert kinds == kinds[..n] + [kinds[n]];
      RestrictToAll(kinds[..n], recorded);
    }
  }

  /** Right after consent everything is granted and nothing is widened. */
  lemma ConsentIsComplete(refs: seq<string>, table: Table, number: IntegerReader)
    ensures var kinds := GrantKindsFor(refs, table, number);
            var recorded := AsSet(kinds);
            Granted(refs, recorded, table, number) == kinds && WidenedBy(refs, recorded, table, number) == []
  {
    hide GrantKindsFor, WidenedBy;
    var kinds := GrantKindsFor(refs, table, number);
    var recorded := AsSet(kinds);
    RestrictToAll(kinds, recorded);
    if |WidenedBy(refs, recorded, table, number)| > 0 {
      var w := WidenedBy(refs, recorded, table, number)[0];
      assert w in WidenedBy(refs, recorded, table, number);
      EveryLiveKindIsHeldOrReported(refs, recorded, table, number, w.kind);
    }
  }

  // ---------------------------------------------------------------------------
  // Over the life of an install
  // ---------------------------------------------------------------------------

  datatype Install = Install(refs: seq<string>, recorded: seq<GrantKind>, table: Table)

  /** A new platform release, an upgrade that drops provider roles, or a new consent. */
  datatype Event = TableChanges(table: Table) | RefsDropped(refs: seq<string>) | Reconsent(refs: seq<string>)

  function Next(s: Install, e: Event, number: IntegerReader): Install {
    match e
    case TableChanges(table) => s.(table := table)
    case RefsDropped(refs) => s.(refs := refs)
    case Reconsent(refs) => s.(refs := refs, recorded := GrantKindsFor(refs, s.table, number))
  }

  predicate Possible(s: Install, events: seq<Event>, number: IntegerReader)
    decreases |events|
  {
    events == [] ||
    (&& (events[0].RefsDropped? ==> forall r | r in events[0].refs :: r in s.refs)
     && Possible(Next(s, events[0], number), events[1..], number))
  }

  function Run(s: Install, events: seq<Event>, number: IntegerReader): Install
    decreases |events|
  {
    if events == [] then s else Run(Next(s, events[0], number), events[1..], number)
  }

  function Holds(s: Install, number: IntegerReader): seq<GrantKind> {
    Granted(s.refs, AsSet(s.recorded), s.table, number)
  }

  lemma {:induction false} RunWithoutConsent(s: Install, events: seq<Event>, number: IntegerReader)
    requires Possible(s, events, number) && forall i | 0 <= i < |events| :: !events[i].Reconsent?
    ensures var t := Run(s, events, number);
            t.recorded == s.recorded && forall r | r in t.refs :: r in s.refs
    decreases |events|
  {
    hide GrantKindsFor;
    if events != [] {
      RunWithoutConsent(Next(s, events[0], number), events[1..], number);
    }
  }

  /**
   * From a consent on, whatever tables and upgrades follow, the install holds only kinds that the consented
   * references implied under the table of that moment, and only while a remaining reference still implies them.
   */
  lemma NeverBeyondLastConsent(s: Install, refs: seq<string>, events: seq<Event>, number: IntegerReader, k: GrantKind)
    requires Possible(s, [Reconsent(refs)] + events, number)
    requires forall i | 0 <= i < |events| :: !events[i].Reconsent?
    ensures var t := Run(s, [Reconsent(refs)] + events, number);
            k in Holds(t, number) ==>
              && k in GrantKindsFor(refs, s.table, number)
              && exists r | r in refs :: r in t.refs && LiveKind(r, t.table, number) == Some(k)
    ensures Holds(Next(s, Reconsent(refs), number), number) == GrantKindsFor(refs, s.table, number)
  {
    hide GrantKindsFor, Granted, LiveKind;
    var consented := Next(s, Reconsent(refs), number);
    assert ([Reconsent(refs)] + events)[1..] == events;
    RunWithoutConsent(consented, events, number);
    ConsentIsComplete(refs, s.table, number);
    var t := Run(consented, events, number);
    EveryLiveKindIsHeldOrReported(t.refs, AsSet(t.recorded), t.table, number, k);
    GrantKindsMembers(t.refs, t.table, number, k);
    if k in Holds(t, number) {
      var i :| 0 <= i < |t.refs| && LiveKind(t.refs[i], t.table, number) == Some(k);
      assert t.refs[i] in t.refs && t.refs[i] in refs;
    }
  }

  /** The references and the table a history without consent leaves in force. */
  function LastRefs(refs: seq<string>, events: seq<Event>): seq<string>
    decreases |events|
  {
    if events == [] then refs
    else LastRefs(if events[0].RefsDropped? then events[0].refs else refs, events[1..])
  }

  function LastTable(table: Table, events: seq<Event>): Table
    decreases |events|
  {
    if events == [] then table
    else LastTable(if events[0].TableChanges? then events[0].table else table, events[1..])
  }

  lemma {:induction false} HistoryDecides(s: Install, events: seq<Event>, number: IntegerReader)
    requires forall i | 0 <= i < |events| :: !events[i].Reconsent?
    ensures Run(s, events, number) == Install(LastRefs(s.refs, events), s.recorded, LastTable(s.table, events))
    decreases |events|
  {
    hide GrantKindsFor;
    if events != [] {
      HistoryDecides(Next(s, events[0], number), events[1..], number);
    }
  }

  /**
   * What an install holds after a consent, a table change or an upgrade that drops references, exactly: the kinds
   * that the consented references implied then and that a reference still in force implies under the table in force.
   */
  lemma HeldExactly(s: Install, refs: seq<string>, events: seq<Event>, number: IntegerReader, k: GrantKind)
    requires forall i | 0 <= i < |events| :: !events[i].Reconsent?
    ensures k in Holds(Run(s, [Reconsent(refs)] + events, number), number) <==>
              && (exists r | r in refs :: Implies(r, s.table, number, k))
              && (exists r | r in LastRefs(refs, events) :: Implies(r, LastTable(s.table, events), number, k))
  {
    hide GrantKindsFor, Granted, Implies, LastRefs, LastTable;
    var consented := Next(s, Reconsent(refs), number);
    assert ([Reconsent(refs)] + events)[1..] == events;
    assert Run(s, [Reconsent(refs)] + events, number) == Run(consented, events, number);
    HistoryDecides(consented, events, number);
    var t := Run(consented, events, number);
    EveryLiveKindIsHeldOrReported(t.refs, AsSet(t.recorded), t.table, number, k);
    KindsExactly(refs, s.table, number, k);
    KindsExactly(t.refs, t.table, number, k);
  }
}
