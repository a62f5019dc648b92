/** The vocabulary of a Compose document as it is written, and that the validator reads it so. */
module ComposeWritten {
  import opened Text
  import opened Values
  import opened Compose
  import BindSources

  // ---------------------------------------------------------------------------
  // Plain values
  // ---------------------------------------------------------------------------

  predicate Missing(v: Value) { v == Undefined || v == Null }

  /** A string with something but white space in it. */
  predicate HasText(v: Value) { v.Str? && !Blank(v.s) }

  /** Values that grant nothing: absent, false, or empty. */
  predicate GivesNothing(v: Value) {
    Missing(v) || v == Bool(false) || v == List([]) || v == Map([]) || (v.Str? && Blank(v.s))
  }

  /** The one option an app may state. */
  ghost predicate PermittedOpt(v: Value) {
    v.Str? && exists u, w :: PaddedOpt(v.s, u, w)
  }

  ghost predicate PaddedOpt(s: string, u: string, w: string) {
    Blank(u) && Blank(w) && s == u + "no-new-privileges:true" + w
  }

  lemma ValuesAreRead(v: Value)
    ensures NonBlankString(v) <==> HasText(v)
    ensures Absent(v) <==> Missing(v)
    ensures CarriesValue(v) <==> !GivesNothing(v)
    ensures AllowedSecurityOpt(v) <==> PermittedOpt(v)
  {
    hide Trim, Blank;
    if v.Str? {
      TrimIsBlank(v.s);
      OptIsRead(v.s);
    }
  }

  lemma TextIsString(v: Value)
    ensures NonBlankString(v) ==> v.Str?
  {}

  lemma OptIsRead(s: string)
    ensures Trim(s) == ALLOWED_SECURITY_OPT <==> exists u, w :: PaddedOpt(s, u, w)
  {
    hide Trim, Blank;
    var u, w := TrimDecomposes(s);
    if Trim(s) == ALLOWED_SECURITY_OPT {
      assert PaddedOpt(s, u, w);
    }
    if u, w :| PaddedOpt(s, u, w) {
      assert Trimmed("no-new-privileges:true");
      TrimOfPadded(u, "no-new-privileges:true", w);
    }
  }

  // ---------------------------------------------------------------------------
  // Names
  // ---------------------------------------------------------------------------

  /** Letters, digits and underscores, not starting with a digit. */
  predicate NameShape(name: string) {
    name != "" && !IsDigit(name[0]) && forall i | 0 <= i < |name| :: IsAlnum(name[i]) || name[i] == '_'
  }

  /** Letters, digits, underscores, dots and hyphens, starting with a letter or a digit. */
  predicate ServiceShape(name: string) {
    && name != "" && name[0] != '_' && name[0] != '.' && name[0] != '-'
    && forall i | 0 <= i < |name| :: IsAlnum(name[i]) || name[i] == '_' || name[i] == '.' || name[i] == '-'
  }

  lemma NamesAreRead(name: string)
    ensures IsEnvKey(name) <==> NameShape(name)
    ensures IsServiceName(name) <==> ServiceShape(name)
  {}

  /** `s` is `front`, or `front`, the mark, and anything; `front` is free of the mark. */
  ghost predicate UpTo(s: string, mark: char, front: string) {
    mark !in front && (s == front || exists rest :: s == front + [mark] + rest)
  }

  lemma FirstPieceIsUpTo(s: string, mark: char, front: string)
    ensures UpTo(s, mark, front) <==> Split(s, mark)[0] == front
  {
    hide Split;
    if UpTo(s, mark, front) {
      if s == front {
        SplitWithoutSeparator(s, mark);
      } else {
        var rest :| s == front + [mark] + rest;
        SplitAtSeparator(front, mark, rest);
      }
    }
    var at := IndexOf(s, mark);
    if at < 0 {
      SplitWithoutSeparator(s, mark);
    } else {
      assert s == s[..at] + [mark] + s[at + 1..];
      SplitAtSeparator(s[..at], mark, s[at + 1..]);
    }
  }

  /** An entry `name` or `name=value` of an environment list, `name` well formed. */
  ghost predicate AssignsName(entry: Value, name: string) {
    entry.Str? && UpTo(entry.s, '=', name) && NameShape(name)
  }

  lemma EntryIsRead(entry: Value, name: string)
    ensures AssignsName(entry, name) <==> entry.Str? && EnvName(entry.s) == name && IsEnvKey(name)
  {
    hide Split, IsEnvKey, NameShape;
    NamesAreRead(name);
    if entry.Str? {
      FirstPieceIsUpTo(entry.s, '=', name);
    }
  }

  ghost predicate WellNamed(entry: Value) { exists name :: AssignsName(entry, name) }

  predicate NamesVariable(entry: Value) { entry.Str? && IsEnvKey(EnvName(entry.s)) }

  lemma NamesVariableIsRead(entry: Value)
    ensures NamesVariable(entry) <==> WellNamed(entry)
  {
    hide EnvName, IsEnvKey, AssignsName;
    if entry.Str? { EntryIsRead(entry, EnvName(entry.s)); }
    if name :| AssignsName(entry, name) { EntryIsRead(entry, name); }
  }

  // ---------------------------------------------------------------------------
  // Volumes
  // ---------------------------------------------------------------------------

  /** `host` is what a string entry has before its first colon, or the `source` of a mapping. */
  ghost predicate Mounts(entry: Value, host: string) {
    match entry
    case Str(s) => UpTo(s, ':', host)
    case Map(_) => Field(entry, "source") == Str(host)
    case _ => false
  }

  predicate OfType(entry: Value, name: string) { entry.Map? && Field(entry, "type") == Str(name) }

  lemma SourceIsRead(entry: Value, host: string)
    ensures Mounts(entry, host) <==> VolumeSource(entry) == Some(host)
  {
    hide Split, Field;
    if entry.Str? {
      FirstPieceIsUpTo(entry.s, ':', host);
    }
  }

  /** A volume name: as a string something that does not look like a path or a variable, as a mapping by its type. */
  ghost predicate MountsVolume(entry: Value, host: string) {
    && Mounts(entry, host) && host != ""
    && (if entry.Str? then '/' !in host && host[0] != '.' && host[0] != '~' && host[0] != '$'
        else OfType(entry, "volume"))
  }

  lemma VolumeIsRead(entry: Value, host: string)
    requires Mounts(entry, host)
    ensures IsNamedVolume(entry) <==> MountsVolume(entry, host)
    ensures IsTmpfs(entry) <==> OfType(entry, "tmpfs")
  {
    hide Split, Field, Lookup;
    SourceIsRead(entry, host);
  }

  lemma SourcelessIsNotNamed(entry: Value)
    requires VolumeSource(entry).None?
    ensures !IsNamedVolume(entry)
  {
    hide VolumeSource;
  }

  // ---------------------------------------------------------------------------
  // References
  // ---------------------------------------------------------------------------

  /** A top-level block defines a name. */
  ghost predicate Defines(block: Value, name: string) {
    block.Map? && exists i | 0 <= i < |block.entries| :: block.entries[i].0 == name
  }

  lemma DefinitionsAreRead(block: Value, name: string)
    ensures name in DefinedNames(block) <==> Defines(block, name)
  {
    if block.Map? {
      if name in Keys(block.entries) {
        var i :| 0 <= i < |block.entries| && Keys(block.entries)[i] == name;
      }
      if i :| 0 <= i < |block.entries| && block.entries[i].0 == name {
        assert Keys(block.entries)[i] == name;
      }
    }
  }

  /** A service's `networks` refers to a name: a string of a list or a key of a mapping. */
  ghost predicate RefersToNetwork(nets: Value, name: string) {
    match nets
    case List(items) => Str(name) in items
    case Map(_) => Defines(nets, name)
    case _ => false
  }

  lemma {:induction false} StringsMembers(items: seq<Value>, name: string)
    ensures name in Strings(items) <==> Str(name) in items
  {
    if items != [] {
      var n := |items| - 1;
      StringsMembers(items[..n], name);
      assert items == items[..n] + [items[n]];
    }
  }

  lemma NetworksAreRead(nets: Value, name: string)
    ensures name in NetworkRefs(nets) <==> RefersToNetwork(nets, name)
  {
    if nets.List? {
      StringsMembers(nets.items, name);
    } else if nets.Map? {
      DefinitionsAreRead(nets, name);
    }
  }

  /** An entry of a service's `secrets` names a secret, in short or long form. */
  predicate NamesSecret(entry: Value, name: string) {
    name != "" && (entry == Str(name) || (entry.Map? && Field(entry, "source") == Str(name)))
  }

  ghost predicate SecretDefined(entry: Value, block: Value) {
    forall name | NamesSecret(entry, name) :: Defines(block, name)
  }

  lemma SecretIsRead(entry: Value, block: Value)
    ensures KnownSecret(entry, DefinedNames(block)) <==> SecretDefined(entry, block)
  {
    hide DefinedNames, Field, Defines;
    forall name { DefinitionsAreRead(block, name); }
    if SecretName(entry).Some? && SecretName(entry).value != "" {
      assert NamesSecret(entry, SecretName(entry).value);
    }
  }

  predicate HostFile(def: Value) { def.Map? && HasText(Field(def, "file")) }

  lemma HostFileIsRead(def: Value)
    ensures ReadsHostFile(def) <==> HostFile(def)
  {
    hide Field, NonBlankString, HasText;
    if def.Map? {
      ValuesAreRead(Field(def, "file"));
    }
  }
}
