/** Exactly which issues the validator reports, said about the document as it is written. */
module ComposeReports {
  import opened Text
  import opened Values
  import opened Compose
  import opened ComposeWritten
  import ComposeAcceptance
  import BindSources

  lemma IndexIsReadable(path: seq<Step>, m: nat, n: nat)
    ensures path + [At(m)] == path + [At(n)] <==> m == n
  {
    if m != n {
      assert (path + [At(m)])[|path|] != (path + [At(n)])[|path|];
    }
  }

  lemma MemberOfConcat(x: Issue, a: seq<Issue>, b: seq<Issue>)
    ensures x in a + b <==> x in a || x in b
  {}

  // ---------------------------------------------------------------------------
  // Images, ports, network mode
  // ---------------------------------------------------------------------------

  /** What is wrong with an image reference, by code. */
  ghost predicate ReferenceFault(ref: string, imageRef: string -> bool, code: Code) {
    if !imageRef(ref) then code == InvalidImageRef
    else if '@' in ref then false
    else if forall tag :: !ComposeAcceptance.HasTag(ref, tag) then code == ImageMissingTag
    else code == ImageMutableTag
         && exists tag :: ComposeAcceptance.HasTag(ref, tag) && Lower(tag) in MUTABLE_IMAGE_TAGS
  }

  ghost predicate ImageReport(svc: Value, path: seq<Step>, imageRef: string -> bool, x: Issue)
    requires svc.Map?
  {
    var image, build := Field(svc, "image"), Field(svc, "build");
    || (x == Fault(ImageAndBuildConflict, path) && HasText(image) && !Missing(build))
    || (x == Fault(MissingImageOrBuild, path) && !HasText(image) && Missing(build))
    || (x == Fault(x.code, path + [Key("image")]) && HasText(image) && ReferenceFault(Trim(image.s), imageRef, x.code))
  }

  lemma ReferenceExactly(ref: string, path: seq<Step>, imageRef: string -> bool, x: Issue)
    ensures x in ReferenceIssues(ref, path, imageRef) <==>
            x == Fault(x.code, path) && ReferenceFault(ref, imageRef, x.code)
  {
    hide ImageTag, Lower, MUTABLE_IMAGE_TAGS, ComposeAcceptance.HasTag;
    if '@' !in ref {
      forall tag
        ensures ImageTag(ref) == Some(tag) <==> ComposeAcceptance.HasTag(ref, tag)
      {
        ComposeAcceptance.ImageTagExactly(ref, tag);
      }
      if ImageTag(ref).Some? {
        assert ComposeAcceptance.HasTag(ref, ImageTag(ref).value);
      }
    }
  }

  lemma ImageExactly(svc: Value, path: seq<Step>, imageRef: string -> bool, x: Issue)
    requires svc.Map?
    ensures x in ImageIssues(svc, path, imageRef) <==> ImageReport(svc, path, imageRef, x)
  {
    hide Field, Trim, ReferenceIssues, ReferenceFault, NonBlankString, HasText, Absent, Missing;
    ValuesAreRead(Field(svc, "image"));
    ValuesAreRead(Field(svc, "build"));
    if NonBlankString(Field(svc, "image")) {
      assert Field(svc, "image").Str? by { TextIsString(Field(svc, "image")); }
      ReferenceExactly(Trim(Field(svc, "image").s), path + [Key("image")], imageRef, x);
    }
  }

  ghost predicate PortReport(ports: Value, path: seq<Step>, x: Issue) {
    ports.List? && exists i | 0 <= i < |ports.items| :: x == Fault(HostPortNotAllowed, path + [At(i)])
  }

  lemma {:induction false} PortsExactly(ports: Value, path: seq<Step>, n: nat, x: Issue)
    ensures x in PortIssues(ports, path, n) <==>
            ports.List? && exists i | 0 <= i < n :: x == Fault(HostPortNotAllowed, path + [At(i)])
  {
    if ports.List? && n > 0 {
      PortsExactly(ports, path, n - 1, x);
      if x == Fault(HostPortNotAllowed, path + [At(n - 1)]) {
        assert x in PortIssues(ports, path, n);
      }
      if i :| 0 <= i < n && x == Fault(HostPortNotAllowed, path + [At(i)]) {
        assert i == n - 1 || x in PortIssues(ports, path, n - 1);
      }
    }
  }

  ghost predicate NetworkModeReport(svc: Value, path: seq<Step>, x: Issue)
    requires svc.Map?
  {
    var mode, at := Field(svc, "network_mode"), path + [Key("network_mode")];
    mode.Str? &&
    (|| (x == Fault(HostNetworkMode, at) && Lower(Trim(mode.s)) == "host")
     || (x == Fault(ForeignNetworkMode, at) && exists rest :: Lower(Trim(mode.s)) == "container:" + rest))
  }

  lemma NetworkModeExactly(svc: Value, path: seq<Step>, x: Issue)
    requires svc.Map?
    ensures x in NetworkModeIssues(svc, path) <==> NetworkModeReport(svc, path, x)
  {
    hide Field, Trim, Lower;
    var m := Field(svc, "network_mode");
    if m.Str? {
      var mode := Lower(Trim(m.s));
      if StartsWith(mode, "container:") {
        assert mode == "container:" + mode[|"container:"|..];
        assert mode[0] == 'c';
      }
    }
  }

  // ---------------------------------------------------------------------------
  // Privileges
  // ---------------------------------------------------------------------------

  ghost predicate SecurityOptReport(opt: Value, path: seq<Step>, x: Issue) {
    && !GivesNothing(opt)
    && (if opt.List? then
          exists i | 0 <= i < |opt.items| ::
            x == Fault(SecurityOpt, path + [Key("security_opt"), At(i)]) && !PermittedOpt(opt.items[i])
        else x == Fault(SecurityOpt, path + [Key("security_opt")]) && !PermittedOpt(opt))
  }

  ghost predicate PrivilegeReport(svc: Value, path: seq<Step>, x: Issue)
    requires svc.Map?
  {
    var privileged := Field(svc, "privileged");
    || (exists key | key in PRIVILEGE_BEARING_KEYS ::
          x == Fault(PrivilegedKey, path + [Key(key)]) && !GivesNothing(Field(svc, key)))
    || SecurityOptReport(Field(svc, "security_opt"), path, x)
    || (x == Issue(PrivilegedService, Warning, path + [Key("privileged")])
        && !Missing(privileged) && privileged != Bool(false))
  }

  lemma {:induction false} PrivilegeKeysExactly(svc: Value, path: seq<Step>, keys: seq<string>, x: Issue)
    requires svc.Map?
    ensures x in PrivilegeKeyIssues(svc, path, keys) <==>
            exists key | key in keys :: x == Fault(PrivilegedKey, path + [Key(key)]) && !GivesNothing(Field(svc, key))
  {
    hide CarriesValue, GivesNothing, Field;
    if keys != [] {
      var n := |keys| - 1;
      PrivilegeKeysExactly(svc, path, keys[..n], x);
      assert keys == keys[..n] + [keys[n]];
      ValuesAreRead(Field(svc, keys[n]));
    }
  }

  lemma {:induction false} SecurityOptsExactly(opt: Value, path: seq<Step>, n: nat, x: Issue)
    requires n <= |SecurityOptEntries(opt)|
    ensures x in SecurityOptIssues(opt, path, n) <==>
            exists i | 0 <= i < n ::
              x == Fault(SecurityOpt, SecurityOptPath(opt, path, i)) && !PermittedOpt(SecurityOptEntries(opt)[i])
  {
    hide AllowedSecurityOpt, PermittedOpt, SecurityOptPath;
    if n > 0 {
      SecurityOptsExactly(opt, path, n - 1, x);
      ValuesAreRead(SecurityOptEntries(opt)[n - 1]);
    }
  }

  lemma SecurityOptExactly(opt: Value, path: seq<Step>, x: Issue)
    ensures CarriesValue(opt) && x in SecurityOptIssues(opt, path, |SecurityOptEntries(opt)|) <==>
            SecurityOptReport(opt, path, x)
  {
    hide AllowedSecurityOpt, PermittedOpt, SecurityOptIssues, CarriesValue, GivesNothing;
    ValuesAreRead(opt);
    SecurityOptsExactly(opt, path, |SecurityOptEntries(opt)|, x);
    if !opt.List? {
      assert SecurityOptEntries(opt)[0] == opt;
    }
  }

  lemma PrivilegesExactly(svc: Value, path: seq<Step>, x: Issue)
    requires svc.Map?
    ensures x in PrivilegeIssues(svc, path) <==> PrivilegeReport(svc, path, x)
  {
    hide CarriesValue, Field, SecurityOptIssues, PrivilegeKeyIssues, GivesNothing, PRIVILEGE_BEARING_KEYS,
      SecurityOptReport, Absent, Missing;
    var opt, privileged := Field(svc, "security_opt"), Field(svc, "privileged");
    PrivilegeKeysExactly(svc, path, PRIVILEGE_BEARING_KEYS, x);
    SecurityOptExactly(opt, path, x);
    ValuesAreRead(privileged);
  }

  // ---------------------------------------------------------------------------
  // Environment
  // ---------------------------------------------------------------------------

  lemma {:induction false} SeenExactly(items: seq<Value>, name: string)
    ensures name in NamesSeen(items) <==>
            exists j | 0 <= j < |items| :: NamesVariable(items[j]) && EnvName(items[j].s) == name
  {
    hide IsEnvKey, EnvName;
    if items != [] {
      var n := |items| - 1;
      SeenExactly(items[..n], name);
      if name in NamesSeen(items[..n]) {
        var j :| 0 <= j < n && NamesVariable(items[..n][j]) && EnvName(items[..n][j].s) == name;
        assert NamesVariable(items[j]);
      }
      if NamesVariable(items[n]) && EnvName(items[n].s) == name {
        assert name in NamesSeen(items);
      }
      if j: nat :| j < n && NamesVariable(items[j]) && EnvName(items[j].s) == name {
        assert items[..n][j] == items[j];
      }
    }
  }

  ghost predicate EnvEntryReport(items: seq<Value>, path: seq<Step>, n: nat, x: Issue)
    requires n < |items|
  {
    || (x == Fault(InvalidEnvForm, path + [At(n)]) && !WellNamed(items[n]))
    || (x == Issue(DuplicateEnvKey, Warning, path + [At(n)])
        && exists name, j | 0 <= j < n :: AssignsName(items[j], name) && AssignsName(items[n], name))
  }

  ghost predicate EnvironmentReport(env: Value, path: seq<Step>, x: Issue) {
    match env
    case Undefined => false
    case Null => false
    case List(items) => exists n: nat | n < |items| :: EnvEntryReport(items, path, n, x)
    case Map(entries) =>
      exists n | 0 <= n < |entries| ::
        x == Fault(InvalidEnvForm, path + [Key(entries[n].0)]) && !NameShape(entries[n].0)
    case _ => x == Fault(InvalidEnvForm, path)
  }

  lemma EnvEntryExactly(items: seq<Value>, path: seq<Step>, n: nat, x: Issue)
    requires n < |items|
    ensures x in EnvEntryIssues(items[n], path + [At(n)], NamesSeen(items[..n])) <==> EnvEntryReport(items, path, n, x)
  {
    hide EnvName, IsEnvKey, AssignsName, NamesSeen;
    NamesVariableIsRead(items[n]);
    if NamesVariable(items[n]) {
      var own := EnvName(items[n].s);
      EntryIsRead(items[n], own);
      SeenExactly(items[..n], own);
      if j :| 0 <= j < n && NamesVariable(items[..n][j]) && EnvName(items[..n][j].s) == own {
        EntryIsRead(items[j], own);
      }
      if name, j :| 0 <= j < n && AssignsName(items[j], name) && AssignsName(items[n], name) {
        EntryIsRead(items[j], name);
        EntryIsRead(items[n], name);
        assert items[..n][j] == items[j];
      }
    }
  }

  lemma {:induction false} EnvListExactly(items: seq<Value>, path: seq<Step>, m: nat, x: Issue)
    requires m <= |items|
    ensures x in EnvListIssues(items[..m], path) <==> exists n: nat | n < m :: EnvEntryReport(items, path, n, x)
  {
    hide EnvEntryIssues, EnvEntryReport, NamesSeen;
    if m > 0 {
      EnvListExactly(items, path, m - 1, x);
      assert items[..m][..m - 1] == items[..m - 1];
      EnvEntryExactly(items, path, m - 1, x);
      MemberOfConcat(x, EnvListIssues(items[..m - 1], path),
                     EnvEntryIssues(items[m - 1], path + [At(m - 1)], NamesSeen(items[..m - 1])));
    }
  }

  lemma {:induction false} EnvMapExactly(entries: seq<(string, Value)>, path: seq<Step>, x: Issue)
    ensures x in EnvMapIssues(entries, path) <==>
            exists n | 0 <= n < |entries| ::
              x == Fault(InvalidEnvForm, path + [Key(entries[n].0)]) && !NameShape(entries[n].0)
  {
    hide IsEnvKey, NameShape;
    if entries != [] {
      var n := |entries| - 1;
      EnvMapExactly(entries[..n], path, x);
      NamesAreRead(entries[n].0);
      if i :| 0 <= i < |entries| && x == Fault(InvalidEnvForm, path + [Key(entries[i].0)]) && !NameShape(entries[i].0) {
        assert i < n ==> entries[..n][i] == entries[i];
      }
    }
  }

  lemma EnvironmentExactly(env: Value, path: seq<Step>, x: Issue)
    ensures x in EnvironmentIssues(env, path) <==> EnvironmentReport(env, path, x)
  {
    hide EnvListIssues, EnvMapIssues, EnvEntryReport, NameShape;
    if env.List? {
      EnvListExactly(env.items, path, |env.items|, x);
      assert env.items[..|env.items|] == env.items;
    } else if env.Map? {
      EnvMapExactly(env.entries, path, x);
    }
  }

  // ---------------------------------------------------------------------------
  // Volumes
  // ---------------------------------------------------------------------------

  predicate BelowToken(source: string) { StartsWith(source, BindSources.APP_DATA_TOKEN + "/") }

  predicate HasReference(source: string)
    requires BelowToken(source)
  {
    '$' in source[|BindSources.APP_DATA_TOKEN|..]
  }

  /** The literal suffix of the source leaves every app root at some step. */
  ghost predicate LeavesEveryRoot(source: string)
    requires BelowToken(source)
  {
    var segments := Split(source[|BindSources.APP_DATA_TOKEN| + 1..], '/');
    forall root: BindSources.Dir | root != [] :: !BindSources.StaysInside(root, segments)
  }

  lemma ClassMeans(source: string)
    ensures BindSources.Classify(source).Outside? <==> source != BindSources.APP_DATA_TOKEN && !BelowToken(source)
    ensures BindSources.Classify(source).Interpolated? <==> BelowToken(source) && HasReference(source)
    ensures BindSources.Classify(source).Escapes? <==>
              BelowToken(source) && !HasReference(source) && LeavesEveryRoot(source)
  {
    hide Split, IndexOf, BindSources.StaysInside, BindSources.FirstEscape;
    if BelowToken(source) {
      assert StartsWith(source, BindSources.APP_DATA_TOKEN) && |source| > |BindSources.APP_DATA_TOKEN|;
      var segments := Split(source[|BindSources.APP_DATA_TOKEN| + 1..], '/');
      forall root: BindSources.Dir | root != []
        ensures !HasReference(source) ==>
                  (BindSources.Classify(source) == BindSources.Contained <==> BindSources.StaysInside(root, segments))
      {
        BindSources.ContainmentIsResolution(source, root);
      }
      assert ["app"] != [];
      assert LeavesEveryRoot(source) ==> !BindSources.StaysInside(["app"], segments);
    }
  }

  /** What is wrong with a volume entry that mounts `host`, by code. */
  ghost predicate VolumeFault(entry: Value, host: string, code: Code) {
    && !OfType(entry, "tmpfs")
    && (if MountsVolume(entry, host) then code == NamedVolume
        else if host == BindSources.APP_DATA_TOKEN then false
        else if !BelowToken(host) then code == VolumeOutside
        else if HasReference(host) then code == VolumeInterpolated
        else code == VolumeEscapes && LeavesEveryRoot(host))
  }

  ghost predicate VolumeReport(entry: Value, path: seq<Step>, x: Issue) {
    x == Fault(x.code, path) && exists host :: Mounts(entry, host) && VolumeFault(entry, host, x.code)
  }

  lemma VolumeExactly(entry: Value, path: seq<Step>, x: Issue)
    ensures x in VolumeIssues(entry, path) <==> VolumeReport(entry, path, x)
  {
    hide IsNamedVolume, IsTmpfs, VolumeSource, BindSources.Classify, BelowToken, HasReference, LeavesEveryRoot,
      Mounts, MountsVolume, OfType;
    forall host { SourceIsRead(entry, host); }
    if VolumeSource(entry).Some? {
      var host := VolumeSource(entry).value;
      ClassMeans(host);
      VolumeIsRead(entry, host);
      TokenIsNotBelow(host);
    } else {
      SourcelessIsNotNamed(entry);
    }
  }

  lemma TokenIsNotBelow(host: string)
    ensures host == BindSources.APP_DATA_TOKEN ==> !BelowToken(host)
  {}

  lemma {:induction false} VolumeListExactly(items: seq<Value>, path: seq<Step>, x: Issue)
    ensures x in VolumeListIssues(items, path) <==>
            exists n | 0 <= n < |items| :: VolumeReport(items[n], path + [At(n)], x)
  {
    hide VolumeIssues, VolumeReport;
    if items != [] {
      var m := |items| - 1;
      VolumeListExactly(items[..m], path, x);
      VolumeExactly(items[m], path + [At(m)], x);
      MemberOfConcat(x, VolumeListIssues(items[..m], path), VolumeIssues(items[m], path + [At(m)]));
      if n :| 0 <= n < |items| && VolumeReport(items[n], path + [At(n)], x) {
        assert n < m ==> items[..m][n] == items[n];
      }
    }
  }

  // ---------------------------------------------------------------------------
  // Networks, secrets, file sources
  // ---------------------------------------------------------------------------

  ghost predicate NetworkReport(nets: Value, path: seq<Step>, block: Value, x: Issue) {
    && x == Fault(UndefinedNetwork, path)
    && exists name :: RefersToNetwork(nets, name) && name != "default" && !Defines(block, name)
  }

  lemma {:induction false} NetworkRefsExactly(refs: seq<string>, path: seq<Step>, defined: set<string>, x: Issue)
    ensures x in NetworkRefIssues(refs, path, defined) <==>
            x == Fault(UndefinedNetwork, path) && exists name | name in refs :: name != "default" && name !in defined
  {
    if refs != [] {
      var n := |refs| - 1;
      var init, last := refs[..n], refs[n];
      NetworkRefsExactly(init, path, defined, x);
      assert refs == init + [last];
      assert forall name :: name in refs <==> name in init || name == last;
      MemberOfConcat(x, NetworkRefIssues(init, path, defined),
                     if KnownNetwork(last, defined) then [] else [Fault(UndefinedNetwork, path)]);
    }
  }

  lemma NetworksExactly(nets: Value, path: seq<Step>, block: Value, x: Issue)
    ensures x in NetworkRefIssues(NetworkRefs(nets), path, DefinedNames(block)) <==> NetworkReport(nets, path, block, x)
  {
    hide NetworkRefIssues, NetworkRefs, DefinedNames, RefersToNetwork, Defines;
    NetworkRefsExactly(NetworkRefs(nets), path, DefinedNames(block), x);
    forall name
      ensures name in NetworkRefs(nets) <==> RefersToNetwork(nets, name)
      ensures name in DefinedNames(block) <==> Defines(block, name)
    {
      NetworksAreRead(nets, name);
      DefinitionsAreRead(block, name);
    }
  }

  ghost predicate SecretReport(secs: Value, path: seq<Step>, block: Value, x: Issue) {
    secs.List? && exists n | 0 <= n < |secs.items| ::
      x == Fault(UndefinedSecret, path + [At(n)]) && !SecretDefined(secs.items[n], block)
  }

  lemma {:induction false} SecretListExactly(items: seq<Value>, path: seq<Step>, block: Value, x: Issue)
    ensures x in SecretListIssues(items, path, DefinedNames(block)) <==>
            exists n | 0 <= n < |items| ::
              x == Fault(UndefinedSecret, path + [At(n)]) && !SecretDefined(items[n], block)
  {
    hide KnownSecret, SecretDefined, DefinedNames;
    if items != [] {
      var m := |items| - 1;
      SecretListExactly(items[..m], path, block, x);
      SecretIsRead(items[m], block);
      if n :| 0 <= n < |items| && x == Fault(UndefinedSecret, path + [At(n)]) && !SecretDefined(items[n], block) {
        assert n < m ==> items[..m][n] == items[n];
      }
    }
  }

  ghost predicate FileSourceReport(block: Value, kind: string, x: Issue) {
    block.Map? && exists n | 0 <= n < |block.entries| ::
      x == Fault(FileSource, [Key(kind), Key(block.entries[n].0), Key("file")]) && HostFile(block.entries[n].1)
  }

  lemma {:induction false} FileSourcesExactly(entries: seq<(string, Value)>, kind: string, x: Issue)
    ensures x in FileSourceIssues(entries, kind) <==>
            exists n | 0 <= n < |entries| ::
              x == Fault(FileSource, [Key(kind), Key(entries[n].0), Key("file")]) && HostFile(entries[n].1)
  {
    hide ReadsHostFile, HostFile;
    if entries != [] {
      var m := |entries| - 1;
      FileSourcesExactly(entries[..m], kind, x);
      HostFileIsRead(entries[m].1);
      if n :| 0 <= n < |entries| && x == Fault(FileSource, [Key(kind), Key(entries[n].0), Key("file")])
              && HostFile(entries[n].1) {
        assert n < m ==> entries[..m][n] == entries[n];
      }
    }
  }

  // ---------------------------------------------------------------------------
  // The whole document
  // ---------------------------------------------------------------------------

  ghost predicate BodyReport(svc: Value, path: seq<Step>, doc: Value, imageRef: string -> bool, x: Issue)
    requires svc.Map? && doc.Map?
  {
    var vols, secs := Field(svc, "volumes"), Field(svc, "secrets");
    || ImageReport(svc, path, imageRef, x)
    || PortReport(Field(svc, "ports"), path + [Key("ports")], x)
    || NetworkModeReport(svc, path, x)
    || PrivilegeReport(svc, path, x)
    || EnvironmentReport(Field(svc, "environment"), path + [Key("environment")], x)
    || (vols.List? && exists n | 0 <= n < |vols.items| ::
          VolumeReport(vols.items[n], path + [Key("volumes")] + [At(n)], x))
    || NetworkReport(Field(svc, "networks"), path + [Key("networks")], Field(doc, "networks"), x)
    || SecretReport(secs, path + [Key("secrets")], Field(doc, "secrets"), x)
  }

  lemma BodyExactly(svc: Value, path: seq<Step>, doc: Value, imageRef: string -> bool, x: Issue)
    requires svc.Map? && doc.Map?
    ensures x in ServiceBodyIssues(svc, path, doc, imageRef) <==> BodyReport(svc, path, doc, imageRef, x)
  {
    hide ImageIssues, PortIssues, NetworkModeIssues, PrivilegeIssues, EnvironmentIssues, NetworkRefIssues, Field,
      SecretListIssues, VolumeListIssues, NetworkRefs, DefinedNames, ImageReport, NetworkModeReport, PrivilegeReport,
      EnvironmentReport, VolumeReport, NetworkReport, SecretDefined;
    var ports, vols, secs := Field(svc, "ports"), Field(svc, "volumes"), Field(svc, "secrets");
    ImageExactly(svc, path, imageRef, x);
    PortsExactly(ports, path + [Key("ports")], ItemCount(ports), x);
    NetworkModeExactly(svc, path, x);
    PrivilegesExactly(svc, path, x);
    EnvironmentExactly(Field(svc, "environment"), path + [Key("environment")], x);
    if vols.List? { VolumeListExactly(vols.items, path + [Key("volumes")], x); }
    NetworksExactly(Field(svc, "networks"), path + [Key("networks")], Field(doc, "networks"), x);
    if secs.List? { SecretListExactly(secs.items, path + [Key("secrets")], Field(doc, "secrets"), x); }
  }

  ghost predicate ServiceReport(name: string, svc: Value, doc: Value, imageRef: string -> bool, x: Issue)
    requires doc.Map?
  {
    var path := [Key("services"), Key(name)];
    || (x == Fault(InvalidServiceName, path) && !ServiceShape(name))
    || (x == Fault(ReservedServiceName, path) && name == "hola-docker-proxy")
    || (if svc.Map? then BodyReport(svc, path, doc, imageRef, x) else x == Fault(InvalidService, path))
  }

  lemma ServiceExactly(name: string, svc: Value, doc: Value, imageRef: string -> bool, x: Issue)
    requires doc.Map?
    ensures x in ServiceIssues(name, svc, doc, imageRef) <==> ServiceReport(name, svc, doc, imageRef, x)
  {
    hide IsServiceName, ServiceShape, ServiceBodyIssues, BodyReport;
    NamesAreRead(name);
    if svc.Map? { BodyExactly(svc, ServicePath(name), doc, imageRef, x); }
  }

  lemma {:induction false} ServicesExactly(services: seq<(string, Value)>, doc: Value, imageRef: string -> bool,
                                           x: Issue)
    requires doc.Map?
    ensures x in ServiceListIssues(services, doc, imageRef) <==>
            exists n | 0 <= n < |services| :: ServiceReport(services[n].0, services[n].1, doc, imageRef, x)
  {
    hide ServiceIssues, ServiceReport;
    if services != [] {
      var m := |services| - 1;
      ServicesExactly(services[..m], doc, imageRef, x);
      ServiceExactly(services[m].0, services[m].1, doc, imageRef, x);
      MemberOfConcat(x, ServiceListIssues(services[..m], doc, imageRef),
                     ServiceIssues(services[m].0, services[m].1, doc, imageRef));
      if n :| 0 <= n < |services| && ServiceReport(services[n].0, services[n].1, doc, imageRef, x) {
        assert n < m ==> services[..m][n] == services[n];
      }
    }
  }

  ghost predicate KeyReport(doc: Value, x: Issue)
    requires doc.Map?
  {
    exists key | Defines(doc, key) ::
      x == Issue(UnsupportedKey, Warning, [Key(key)])
      && key !in ["version", "name", "services", "volumes", "networks", "secrets", "configs"]
  }

  lemma {:induction false} KeysExactly(keys: seq<string>, x: Issue)
    ensures x in TopLevelKeyIssues(keys) <==>
            exists key | key in keys ::
              x == Issue(UnsupportedKey, Warning, [Key(key)])
              && key !in ["version", "name", "services", "volumes", "networks", "secrets", "configs"]
  {
    if keys != [] {
      var n := |keys| - 1;
      KeysExactly(keys[..n], x);
      assert keys == keys[..n] + [keys[n]];
    }
  }

  /** Every issue a document deserves, with its code, its severity and the place it points at. */
  ghost predicate DocumentReport(doc: Value, imageRef: string -> bool, x: Issue) {
    if !doc.Map? then x == Fault(InvalidYaml, [])
    else
      var services := Field(doc, "services");
      || KeyReport(doc, x)
      || (if !services.Map? || services.entries == [] then x == Fault(NoServices, [Key("services")])
          else
            || FileSourceReport(Field(doc, "secrets"), "secrets", x)
            || FileSourceReport(Field(doc, "configs"), "configs", x)
            || exists n | 0 <= n < |services.entries| ::
                 ServiceReport(services.entries[n].0, services.entries[n].1, doc, imageRef, x))
  }

  /** The validator reports exactly those. */
  lemma DocumentExactly(doc: Value, imageRef: string -> bool, x: Issue)
    ensures x in DocumentIssues(doc, imageRef) <==> DocumentReport(doc, imageRef, x)
  {
    hide Field, ServiceListIssues, TopLevelKeyIssues, FileSourceIssues, ServiceReport, HostFile, Keys;
    if doc.Map? {
      var services, secrets, configs := Field(doc, "services"), Field(doc, "secrets"), Field(doc, "configs");
      KeysExactly(Keys(doc.entries), x);
      forall key { DefinitionsAreRead(doc, key); }
      if services.Map? && services.entries != [] {
        if secrets.Map? { FileSourcesExactly(secrets.entries, "secrets", x); }
        if configs.Map? { FileSourcesExactly(configs.entries, "configs", x); }
        ServicesExactly(services.entries, doc, imageRef, x);
      }
    }
  }
}
