/** What an accepted Compose document is, stated without reference to the validator, and the proof that they agree. */
module ComposeAcceptance {
  import opened Text
  import opened Values
  import opened Compose
  import opened ComposeWritten
  import BindSources

  // ---------------------------------------------------------------------------
  // The declarative predicate
  // ---------------------------------------------------------------------------

  /** `ref` is `dir` + `name` + `:` + `tag`, the colon being the first one of the last path segment. */
  ghost predicate SplitsAsTag(ref: string, dir: string, name: string, tag: string) {
    && ref == dir + name + ":" + tag
    && (dir == "" || dir[|dir| - 1] == '/')
    && '/' !in name && ':' !in name && '/' !in tag
  }

  ghost predicate HasTag(ref: string, tag: string) {
    exists dir, name :: SplitsAsTag(ref, dir, name, tag)
  }

  /** A digest, or a tag that does not float. */
  ghost predicate Pinned(ref: string) {
    '@' in ref || exists tag :: HasTag(ref, tag) && Lower(tag) !in MUTABLE_IMAGE_TAGS
  }

  ghost predicate AcceptableImage(svc: Value, imageRef: string -> bool)
    requires svc.Map?
  {
    var image := Field(svc, "image");
    && (HasText(image) <==> Missing(Field(svc, "build")))
    && (HasText(image) ==> imageRef(Trim(image.s)) && Pinned(Trim(image.s)))
  }

  ghost predicate AcceptableNetworkMode(mode: Value) {
    mode.Str? ==> Lower(Trim(mode.s)) != "host" && !StartsWith(Lower(Trim(mode.s)), "container:")
  }

  ghost predicate AcceptableSecurityOpt(opt: Value) {
    match opt
    case List(items) => forall i | 0 <= i < |items| :: PermittedOpt(items[i])
    case _ => !GivesNothing(opt) ==> PermittedOpt(opt)
  }

  ghost predicate AcceptablePrivileges(svc: Value)
    requires svc.Map?
  {
    && (forall key | key in PRIVILEGE_BEARING_KEYS :: GivesNothing(Field(svc, key)))
    && AcceptableSecurityOpt(Field(svc, "security_opt"))
  }

  ghost predicate AcceptableEnvironment(env: Value) {
    match env
    case Undefined => true
    case Null => true
    case List(items) => forall i | 0 <= i < |items| :: WellNamed(items[i])
    case Map(entries) => forall i | 0 <= i < |entries| :: NameShape(entries[i].0)
    case _ => false
  }

  /** Every entry but a tmpfs that mounts something mounts a host path inside every app root. */
  ghost predicate AcceptableVolume(entry: Value) {
    || OfType(entry, "tmpfs")
    || forall host | Mounts(entry, host) :: !OfType(entry, "volume") && AlwaysUnderRoot(host)
  }

  ghost predicate AlwaysUnderRoot(source: string) {
    forall root: BindSources.Dir | root != [] :: BindSources.UnderRoot(root, source)
  }

  ghost predicate AcceptableVolumes(vols: Value) {
    vols.List? ==> forall i | 0 <= i < |vols.items| :: AcceptableVolume(vols.items[i])
  }

  ghost predicate AcceptableNetworks(nets: Value, block: Value) {
    forall name | RefersToNetwork(nets, name) :: name == "default" || Defines(block, name)
  }

  ghost predicate AcceptableSecrets(secs: Value, block: Value) {
    secs.List? ==> forall i | 0 <= i < |secs.items| :: SecretDefined(secs.items[i], block)
  }

  ghost predicate NoHostFiles(block: Value) {
    block.Map? ==> forall i | 0 <= i < |block.entries| :: !HostFile(block.entries[i].1)
  }

  ghost predicate AcceptableBody(svc: Value, doc: Value, imageRef: string -> bool)
    requires svc.Map? && doc.Map?
  {
    && AcceptableImage(svc, imageRef)
    && (Field(svc, "ports").List? ==> Field(svc, "ports") == List([]))
    && AcceptableNetworkMode(Field(svc, "network_mode"))
    && AcceptablePrivileges(svc)
    && AcceptableEnvironment(Field(svc, "environment"))
    && AcceptableVolumes(Field(svc, "volumes"))
    && AcceptableNetworks(Field(svc, "networks"), Field(doc, "networks"))
    && AcceptableSecrets(Field(svc, "secrets"), Field(doc, "secrets"))
  }

  ghost predicate AcceptableService(name: string, svc: Value, doc: Value, imageRef: string -> bool)
    requires doc.Map?
  {
    && ServiceShape(name) && name != "hola-docker-proxy"
    && svc.Map? && AcceptableBody(svc, doc, imageRef)
  }

  ghost predicate Acceptable(doc: Value, imageRef: string -> bool) {
    && doc.Map?
    && var services := Field(doc, "services");
    && services.Map? && services.entries != []
    && NoHostFiles(Field(doc, "secrets")) && NoHostFiles(Field(doc, "configs"))
    && forall i | 0 <= i < |services.entries| ::
         AcceptableService(services.entries[i].0, services.entries[i].1, doc, imageRef)
  }

  // ---------------------------------------------------------------------------
  // Images
  // ---------------------------------------------------------------------------

  /** `imageTag` reads the tag off the written form of the reference. */
  lemma ImageTagExactly(ref: string, tag: string)
    requires '@' !in ref
    ensures ImageTag(ref) == Some(tag) <==> HasTag(ref, tag)
  {
    hide ImageTag, SplitsAsTag;
    if ImageTag(ref) == Some(tag) {
      TagIsWritten(ref);
    }
    if HasTag(ref, tag) {
      var d, name :| SplitsAsTag(ref, d, name, tag);
      TagIsUnique(ref, d, name, tag);
    }
  }

  lemma TagIsWritten(ref: string)
    requires '@' !in ref && ImageTag(ref).Some?
    ensures HasTag(ref, ImageTag(ref).value)
  {
    hide ImageTag, IndexOf, LastIndexOf, HasTag, SplitsAsTag;
    TagWithoutDigest(ref);
    var slash := LastIndexOf(ref, '/');
    var dir, segment := ref[..slash + 1], ref[slash + 1..];
    var colon := IndexOf(segment, ':');
    assert ref == dir + segment;
    WrittenAt(ref, dir, segment, colon);
    HasTagBy(ref, dir, segment[..colon], segment[colon + 1..]);
  }

  lemma TagWithoutDigest(ref: string)
    requires '@' !in ref
    ensures var segment := ref[LastIndexOf(ref, '/') + 1..];
            var colon := IndexOf(segment, ':');
            ImageTag(ref) == if colon < 0 then None else Some(segment[colon + 1..])
  {
    hide Split, IndexOf, LastIndexOf;
    SplitWithoutSeparator(ref, '@');
  }

  lemma WrittenAt(ref: string, dir: string, segment: string, colon: nat)
    requires ref == dir + segment && (dir == "" || dir[|dir| - 1] == '/') && '/' !in segment
    requires colon < |segment| && segment[colon] == ':' && ':' !in segment[..colon]
    ensures SplitsAsTag(ref, dir, segment[..colon], segment[colon + 1..])
  {
    var name, tag := segment[..colon], segment[colon + 1..];
    assert segment == name + ":" + tag;
    ConcatAssociates(dir, name + ":", tag);
    ConcatAssociates(dir, name, ":");
  }

  lemma HasTagBy(ref: string, dir: string, name: string, tag: string)
    requires SplitsAsTag(ref, dir, name, tag)
    ensures HasTag(ref, tag)
  {}

  lemma TagIsUnique(ref: string, dir: string, name: string, tag: string)
    requires '@' !in ref && SplitsAsTag(ref, dir, name, tag)
    ensures ImageTag(ref) == Some(tag)
  {
    hide Split, IndexOf, LastIndexOf;
    SplitWithoutSeparator(ref, '@');
    assert ref == dir + (name + ":" + tag);
    LastIndexOfAt(dir, '/', name + ":" + tag);
    assert ref[|dir|..] == name + [':'] + tag;
    IndexOfAt(name, ':', tag);
    assert (name + [':'] + tag)[|name| + 1..] == tag;
  }

  lemma ReferenceAgrees(ref: string, path: seq<Step>, imageRef: string -> bool)
    ensures NoErrors(ReferenceIssues(ref, path, imageRef)) <==> imageRef(ref) && Pinned(ref)
  {
    hide ImageTag, Lower, MUTABLE_IMAGE_TAGS, HasTag;
    NoErrorsOfOne();
    if '@' !in ref {
      forall tag
        ensures ImageTag(ref) == Some(tag) <==> HasTag(ref, tag)
      {
        ImageTagExactly(ref, tag);
      }
    }
  }

  lemma ImageAgrees(svc: Value, path: seq<Step>, imageRef: string -> bool)
    requires svc.Map?
    ensures NoErrors(ImageIssues(svc, path, imageRef)) <==> AcceptableImage(svc, imageRef)
  {
    hide Field, Trim, ReferenceIssues, Pinned, HasText, Missing, NonBlankString, Absent;
    NoErrorsOfOne();
    var image := Field(svc, "image");
    ValuesAreRead(image);
    ValuesAreRead(Field(svc, "build"));
    TextIsString(image);
    if NonBlankString(image) {
      ReferenceAgrees(Trim(image.s), path + [Key("image")], imageRef);
    }
    var hasImage, hasBuild := NonBlankString(image), !Absent(Field(svc, "build"));
    var first := if hasImage && hasBuild then [Fault(ImageAndBuildConflict, path)]
                 else if !hasImage && !hasBuild then [Fault(MissingImageOrBuild, path)] else [];
    var second := if !hasImage then [] else ReferenceIssues(Trim(image.s), path + [Key("image")], imageRef);
    NoErrorsConcat(first, second);
  }

  // ---------------------------------------------------------------------------
  // Lists of entries
  // ---------------------------------------------------------------------------

  lemma {:induction false} PortsAgree(ports: Value, path: seq<Step>, n: nat)
    ensures NoErrors(PortIssues(ports, path, n)) <==> !ports.List? || n == 0
  {
    NoErrorsOfOne();
    if ports.List? && n > 0 {
      NoErrorsConcat(PortIssues(ports, path, n - 1), [Fault(HostPortNotAllowed, path + [At(n - 1)])]);
    }
  }

  lemma {:induction false} PrivilegeKeysAgree(svc: Value, path: seq<Step>, keys: seq<string>)
    requires svc.Map?
    ensures NoErrors(PrivilegeKeyIssues(svc, path, keys)) <==>
            forall key | key in keys :: GivesNothing(Field(svc, key))
  {
    hide CarriesValue, GivesNothing, Field;
    NoErrorsOfOne();
    if keys != [] {
      var n := |keys| - 1;
      PrivilegeKeysAgree(svc, path, keys[..n]);
      ValuesAreRead(Field(svc, keys[n]));
      NoErrorsConcat(PrivilegeKeyIssues(svc, path, keys[..n]),
                     if CarriesValue(Field(svc, keys[n])) then [Fault(PrivilegedKey, path + [Key(keys[n])])] else []);
      assert keys == keys[..n] + [keys[n]];
    }
  }

  lemma {:induction false} SecurityOptsAgree(opt: Value, path: seq<Step>, n: nat)
    requires n <= |SecurityOptEntries(opt)|
    ensures NoErrors(SecurityOptIssues(opt, path, n)) <==>
            forall i | 0 <= i < n :: PermittedOpt(SecurityOptEntries(opt)[i])
  {
    hide AllowedSecurityOpt, PermittedOpt, SecurityOptPath;
    NoErrorsOfOne();
    if n > 0 {
      ValuesAreRead(SecurityOptEntries(opt)[n - 1]);
      SecurityOptsAgree(opt, path, n - 1);
      NoErrorsConcat(SecurityOptIssues(opt, path, n - 1),
                     if AllowedSecurityOpt(SecurityOptEntries(opt)[n - 1]) then []
                     else [Fault(SecurityOpt, SecurityOptPath(opt, path, n - 1))]);
    }
  }

  lemma SecurityOptAgrees(opt: Value, path: seq<Step>)
    ensures (CarriesValue(opt) ==> NoErrors(SecurityOptIssues(opt, path, |SecurityOptEntries(opt)|)))
            <==> AcceptableSecurityOpt(opt)
  {
    hide AllowedSecurityOpt, PermittedOpt, SecurityOptIssues, CarriesValue, GivesNothing;
    NoErrorsOfOne();
    ValuesAreRead(opt);
    NothingInAList(opt);
    SecurityOptsAgree(opt, path, |SecurityOptEntries(opt)|);
    if !opt.List? {
      assert SecurityOptEntries(opt)[0] == opt;
    }
  }

  lemma NothingInAList(opt: Value)
    ensures opt.List? ==> (GivesNothing(opt) <==> opt.items == [])
  {}

  lemma PrivilegesAgree(svc: Value, path: seq<Step>)
    requires svc.Map?
    ensures NoErrors(PrivilegeIssues(svc, path)) <==> AcceptablePrivileges(svc)
  {
    hide CarriesValue, GivesNothing, Field, SecurityOptIssues, PrivilegeKeyIssues, AcceptableSecurityOpt,
      PRIVILEGE_BEARING_KEYS;
    NoErrorsOfOne();
    var opt, privileged := Field(svc, "security_opt"), Field(svc, "privileged");
    PrivilegeKeysAgree(svc, path, PRIVILEGE_BEARING_KEYS);
    SecurityOptAgrees(opt, path);
    var a := PrivilegeKeyIssues(svc, path, PRIVILEGE_BEARING_KEYS);
    var b := if CarriesValue(opt) then SecurityOptIssues(opt, path, |SecurityOptEntries(opt)|) else [];
    var c := if Absent(privileged) || privileged == Bool(false) then []
             else [Issue(PrivilegedService, Warning, path + [Key("privileged")])];
    NoErrorsConcat(a, b);
    NoErrorsConcat(a + b, c);
  }

  lemma {:induction false} EnvListAgrees(items: seq<Value>, path: seq<Step>)
    ensures NoErrors(EnvListIssues(items, path)) <==>
            forall i | 0 <= i < |items| :: WellNamed(items[i])
  {
    hide IsEnvKey, EnvName, NamesSeen, WellNamed;
    NoErrorsOfOne();
    if items != [] {
      var n := |items| - 1;
      EnvListAgrees(items[..n], path);
      NamesVariableIsRead(items[n]);
      NoErrorsConcat(EnvListIssues(items[..n], path), EnvEntryIssues(items[n], path + [At(n)], NamesSeen(items[..n])));
    }
  }

  lemma {:induction false} EnvMapAgrees(entries: seq<(string, Value)>, path: seq<Step>)
    ensures NoErrors(EnvMapIssues(entries, path)) <==> forall i | 0 <= i < |entries| :: NameShape(entries[i].0)
  {
    hide IsEnvKey, NameShape;
    NoErrorsOfOne();
    if entries != [] {
      var n := |entries| - 1;
      EnvMapAgrees(entries[..n], path);
      assert forall i | 0 <= i < n :: entries[..n][i] == entries[i];
      NamesAreRead(entries[n].0);
      NoErrorsConcat(EnvMapIssues(entries[..n], path),
                     if IsEnvKey(entries[n].0) then [] else [Fault(InvalidEnvForm, path + [Key(entries[n].0)])]);
    }
  }

  lemma EnvironmentAgrees(env: Value, path: seq<Step>)
    ensures NoErrors(EnvironmentIssues(env, path)) <==> AcceptableEnvironment(env)
  {
    hide NameShape, WellNamed, EnvListIssues, EnvMapIssues;
    NoErrorsOfOne();
    if env.List? { EnvListAgrees(env.items, path); }
    if env.Map? { EnvMapAgrees(env.entries, path); }
  }

  /** A contained source starts with the token, so it never reads as a named volume. */
  lemma ContainedIsNotNamed(source: string)
    requires BindSources.Classify(source) == BindSources.Contained
    ensures source != "" && source[0] == '$'
  {
    hide BindSources.FirstEscape, BindSources.SourceInterpolation, Split;
    assert source[0] == (BindSources.APP_DATA_TOKEN + "/")[0];
  }

  lemma ContainedIsUnderRoot(source: string)
    ensures BindSources.Classify(source) == BindSources.Contained <==> AlwaysUnderRoot(source)
  {
    hide BindSources.Classify, BindSources.UnderRoot;
    forall root: BindSources.Dir | root != []
      ensures BindSources.Classify(source) == BindSources.Contained <==> BindSources.UnderRoot(root, source)
    {
      BindSources.ContainmentIsResolution(source, root);
    }
    if AlwaysUnderRoot(source) {
      assert BindSources.UnderRoot(["app"], source);
    }
  }

  lemma VolumeAgrees(entry: Value, path: seq<Step>)
    ensures NoErrors(VolumeIssues(entry, path)) <==> AcceptableVolume(entry)
  {
    hide BindSources.Classify, AlwaysUnderRoot, Field, Split, Mounts, OfType, IsTmpfs, IsNamedVolume, VolumeSource;
    NoErrorsOfOne();
    forall host { SourceIsRead(entry, host); }
    var source := VolumeSource(entry);
    if source.Some? {
      VolumeIsRead(entry, source.value);
      ContainedIsUnderRoot(source.value);
      NamedOrContained(entry, source.value);
    } else {
      SourcelessIsNotNamed(entry);
    }
  }

  /** A contained host is not a volume name, unless the entry says it is a volume. */
  lemma NamedOrContained(entry: Value, host: string)
    requires Mounts(entry, host)
    ensures BindSources.Classify(host) == BindSources.Contained ==>
              (MountsVolume(entry, host) <==> OfType(entry, "volume"))
    ensures OfType(entry, "volume") ==> MountsVolume(entry, host) || BindSources.Classify(host) != BindSources.Contained
  {
    hide BindSources.Classify, Field;
    if BindSources.Classify(host) == BindSources.Contained {
      ContainedIsNotNamed(host);
    }
  }

  lemma {:induction false} VolumeListAgrees(items: seq<Value>, path: seq<Step>)
    ensures NoErrors(VolumeListIssues(items, path)) <==> forall i | 0 <= i < |items| :: AcceptableVolume(items[i])
  {
    hide VolumeIssues, AcceptableVolume;
    NoErrorsOfOne();
    if items != [] {
      var n := |items| - 1;
      VolumeListAgrees(items[..n], path);
      VolumeAgrees(items[n], path + [At(n)]);
      NoErrorsConcat(VolumeListIssues(items[..n], path), VolumeIssues(items[n], path + [At(n)]));
    }
  }

  lemma {:induction false} NetworkRefsAgree(refs: seq<string>, path: seq<Step>, defined: set<string>)
    ensures NoErrors(NetworkRefIssues(refs, path, defined)) <==>
            forall name | name in refs :: KnownNetwork(name, defined)
  {
    hide KnownNetwork;
    NoErrorsOfOne();
    if refs != [] {
      var n := |refs| - 1;
      NetworkRefsAgree(refs[..n], path, defined);
      NoErrorsConcat(NetworkRefIssues(refs[..n], path, defined),
                     if KnownNetwork(refs[n], defined) then [] else [Fault(UndefinedNetwork, path)]);
      assert refs == refs[..n] + [refs[n]];
    }
  }

  lemma NetworksAgree(nets: Value, path: seq<Step>, block: Value)
    ensures NoErrors(NetworkRefIssues(NetworkRefs(nets), path, DefinedNames(block))) <==>
            AcceptableNetworks(nets, block)
  {
    hide NetworkRefs, NetworkRefIssues, DefinedNames, RefersToNetwork, Defines;
    NetworkRefsAgree(NetworkRefs(nets), path, DefinedNames(block));
    forall name
      ensures name in NetworkRefs(nets) <==> RefersToNetwork(nets, name)
      ensures name in DefinedNames(block) <==> Defines(block, name)
    {
      NetworksAreRead(nets, name);
      DefinitionsAreRead(block, name);
    }
  }

  lemma {:induction false} SecretListAgrees(items: seq<Value>, path: seq<Step>, block: Value)
    ensures NoErrors(SecretListIssues(items, path, DefinedNames(block))) <==>
            forall i | 0 <= i < |items| :: SecretDefined(items[i], block)
  {
    hide KnownSecret, SecretDefined, DefinedNames;
    NoErrorsOfOne();
    if items != [] {
      var n := |items| - 1;
      SecretListAgrees(items[..n], path, block);
      SecretIsRead(items[n], block);
      NoErrorsConcat(SecretListIssues(items[..n], path, DefinedNames(block)),
                     if KnownSecret(items[n], DefinedNames(block)) then []
                     else [Fault(UndefinedSecret, path + [At(n)])]);
    }
  }

  lemma {:induction false} FileSourcesAgree(entries: seq<(string, Value)>, kind: string)
    ensures NoErrors(FileSourceIssues(entries, kind)) <==> forall i | 0 <= i < |entries| :: !HostFile(entries[i].1)
  {
    hide ReadsHostFile, HostFile;
    NoErrorsOfOne();
    if entries != [] {
      var n := |entries| - 1;
      FileSourcesAgree(entries[..n], kind);
      HostFileIsRead(entries[n].1);
      assert forall i | 0 <= i < n :: entries[..n][i] == entries[i];
      NoErrorsConcat(FileSourceIssues(entries[..n], kind),
                     if ReadsHostFile(entries[n].1)
                     then [Fault(FileSource, [Key(kind), Key(entries[n].0), Key("file")])]
                     else []);
    }
  }

  // ---------------------------------------------------------------------------
  // The whole document
  // ---------------------------------------------------------------------------

  lemma BodyAgrees(svc: Value, path: seq<Step>, doc: Value, imageRef: string -> bool)
    requires svc.Map? && doc.Map?
    ensures NoErrors(ServiceBodyIssues(svc, path, doc, imageRef)) <==> AcceptableBody(svc, doc, imageRef)
  {
    hide ImageIssues, PortIssues, NetworkModeIssues, PrivilegeIssues, EnvironmentIssues, NetworkRefIssues, Field,
      SecretListIssues, VolumeListIssues, NetworkRefs, DefinedNames, NoErrors, AcceptableImage, AcceptablePrivileges,
      AcceptableEnvironment, AcceptableNetworks, AcceptableNetworkMode, AcceptableVolume, KnownSecret, SecretDefined;
    NoErrorsOfOne();
    var ports, vols, secs := Field(svc, "ports"), Field(svc, "volumes"), Field(svc, "secrets");
    var networks, secrets := DefinedNames(Field(doc, "networks")), DefinedNames(Field(doc, "secrets"));
    var a := ImageIssues(svc, path, imageRef);
    var b := PortIssues(ports, path + [Key("ports")], ItemCount(ports));
    var c := NetworkModeIssues(svc, path);
    var d := PrivilegeIssues(svc, path);
    var e := EnvironmentIssues(Field(svc, "environment"), path + [Key("environment")]);
    var f := VolumesIssues(vols, path + [Key("volumes")]);
    var g := NetworkRefIssues(NetworkRefs(Field(svc, "networks")), path + [Key("networks")], networks);
    var h := SecretsIssues(secs, path + [Key("secrets")], secrets);
    ImageAgrees(svc, path, imageRef);
    PortsAgree(ports, path + [Key("ports")], ItemCount(ports));
    NetworkModeAgrees(svc, path);
    PrivilegesAgree(svc, path);
    EnvironmentAgrees(Field(svc, "environment"), path + [Key("environment")]);
    if vols.List? { VolumeListAgrees(vols.items, path + [Key("volumes")]); }
    NetworksAgree(Field(svc, "networks"), path + [Key("networks")], Field(doc, "networks"));
    if secs.List? { SecretListAgrees(secs.items, path + [Key("secrets")], Field(doc, "secrets")); }
    NoErrorsConcat(a, b);
    NoErrorsConcat(a + b, c);
    NoErrorsConcat(a + b + c, d);
    NoErrorsConcat(a + b + c + d, e);
    NoErrorsConcat(a + b + c + d + e, f);
    NoErrorsConcat(a + b + c + d + e + f, g);
    NoErrorsConcat(a + b + c + d + e + f + g, h);
  }

  lemma NetworkModeAgrees(svc: Value, path: seq<Step>)
    requires svc.Map?
    ensures NoErrors(NetworkModeIssues(svc, path)) <==> AcceptableNetworkMode(Field(svc, "network_mode"))
  {
    hide Field, Trim, Lower;
    NoErrorsOfOne();
  }

  lemma ServiceAgrees(name: string, svc: Value, doc: Value, imageRef: string -> bool)
    requires doc.Map?
    ensures NoErrors(ServiceIssues(name, svc, doc, imageRef)) <==> AcceptableService(name, svc, doc, imageRef)
  {
    hide IsServiceName, ServiceShape, ServiceBodyIssues, AcceptableBody;
    NoErrorsOfOne();
    NamesAreRead(name);
    var path := ServicePath(name);
    if svc.Map? { BodyAgrees(svc, path, doc, imageRef); }
    var a := if IsServiceName(name) then [] else [Fault(InvalidServiceName, path)];
    var b := if name in RESERVED_SERVICE_NAMES then [Fault(ReservedServiceName, path)] else [];
    var c := if svc.Map? then ServiceBodyIssues(svc, path, doc, imageRef) else [Fault(InvalidService, path)];
    NoErrorsConcat(a, b);
    NoErrorsConcat(a + b, c);
  }

  lemma {:induction false} ServicesAgree(services: seq<(string, Value)>, doc: Value, imageRef: string -> bool)
    requires doc.Map?
    ensures NoErrors(ServiceListIssues(services, doc, imageRef)) <==>
            forall i | 0 <= i < |services| :: AcceptableService(services[i].0, services[i].1, doc, imageRef)
  {
    hide ServiceIssues, AcceptableService;
    NoErrorsOfOne();
    if services != [] {
      var n := |services| - 1;
      ServicesAgree(services[..n], doc, imageRef);
      ServiceAgrees(services[n].0, services[n].1, doc, imageRef);
      NoErrorsConcat(ServiceListIssues(services[..n], doc, imageRef),
                     ServiceIssues(services[n].0, services[n].1, doc, imageRef));
    }
  }

  lemma {:induction false} TopLevelKeysOnlyWarn(keys: seq<string>)
    ensures NoErrors(TopLevelKeyIssues(keys))
  {
    hide SUPPORTED_TOP_LEVEL_KEYS;
    NoErrorsOfOne();
    if keys != [] {
      var n := |keys| - 1;
      TopLevelKeysOnlyWarn(keys[..n]);
      NoErrorsConcat(TopLevelKeyIssues(keys[..n]),
                     if keys[n] in SUPPORTED_TOP_LEVEL_KEYS then []
                     else [Issue(UnsupportedKey, Warning, [Key(keys[n])])]);
    }
  }

  /** The validator reports no error exactly on the acceptable documents. */
  lemma NoErrorsIffAcceptable(doc: Value, imageRef: string -> bool)
    ensures NoErrors(DocumentIssues(doc, imageRef)) <==> Acceptable(doc, imageRef)
  {
    hide Field, ServiceListIssues, TopLevelKeyIssues, FileSourceIssues, AcceptableService, HostFile;
    NoErrorsOfOne();
    if doc.Map? {
      var services, secrets, configs := Field(doc, "services"), Field(doc, "secrets"), Field(doc, "configs");
      TopLevelKeysOnlyWarn(Keys(doc.entries));
      if services.Map? && services.entries != [] {
        if secrets.Map? { FileSourcesAgree(secrets.entries, "secrets"); }
        if configs.Map? { FileSourcesAgree(configs.entries, "configs"); }
        ServicesAgree(services.entries, doc, imageRef);
        var a, b := FileSourcesIssues(secrets, "secrets"), FileSourcesIssues(configs, "configs");
        var c := ServiceListIssues(services.entries, doc, imageRef);
        NoErrorsConcat(a, b);
        NoErrorsConcat(a + b, c);
        NoErrorsConcat(TopLevelKeyIssues(Keys(doc.entries)), a + b + c);
      } else {
        NoErrorsConcat(TopLevelKeyIssues(Keys(doc.entries)), [Fault(NoServices, [Key("services")])]);
      }
    }
  }

  /** Entry `v` in the volume list of service `s`, when there is one. */
  function VolumeOf(doc: Value, s: nat, v: nat): Option<Value> {
    if !doc.Map? || !Field(doc, "services").Map? then None
    else if s >= |Field(doc, "services").entries| then None
    else
      var svc := Field(doc, "services").entries[s].1;
      if !svc.Map? || !Field(svc, "volumes").List? then None
      else if v >= |Field(svc, "volumes").items| then None
      else Some(Field(svc, "volumes").items[v])
  }

  /** The source of a volume entry starts with the token and never leaves `root` when interpolated with `env`. */
  ghost predicate StaysUnder(source: string, root: BindSources.Dir, env: string -> string) {
    && StartsWith(source, BindSources.APP_DATA_TOKEN)
    && var suffix := source[|BindSources.APP_DATA_TOKEN|..];
       BindSources.StaysInside(root, Split(BindSources.Interpolate(suffix, env), '/'))
  }

  /**
   * The storage promise, on the document as written: without errors whatever a volume entry has before its first
   * colon, or as its `source`, stays in the app root under any environment, unless the entry is a tmpfs.
   */
  lemma AcceptedVolumesStayInside(doc: Value, imageRef: string -> bool, s: nat, v: nat, host: string,
                                  root: BindSources.Dir, env: string -> string)
    requires root != []
    ensures var entry := VolumeOf(doc, s, v);
            NoErrors(DocumentIssues(doc, imageRef)) && entry.Some? && Mounts(entry.value, host) ==>
            OfType(entry.value, "tmpfs") || StaysUnder(host, root, env)
  {
    hide Field, AcceptableImage, AcceptablePrivileges, AcceptableEnvironment, AcceptableNetworks, AcceptableSecrets,
      BindSources.Classify, BindSources.StaysInside, BindSources.Interpolate, Split, DocumentIssues, NoErrors, Mounts,
      OfType, AlwaysUnderRoot;
    var entry := VolumeOf(doc, s, v);
    if NoErrors(DocumentIssues(doc, imageRef)) && entry.Some? && Mounts(entry.value, host)
       && !OfType(entry.value, "tmpfs") {
      NoErrorsIffAcceptable(doc, imageRef);
      var service := Field(doc, "services").entries[s];
      assert AcceptableService(service.0, service.1, doc, imageRef);
      assert AcceptableVolume(entry.value);
      ContainedIsUnderRoot(host);
      BindSources.ContainedUnderEveryEnvironment(host, root, env);
      TokenFirst(host);
    }
  }

  /** A written entry, `host` alone or `host:` and anything, is accepted exactly when `host` stays under every root. */
  lemma WrittenVolumeExactly(host: string, rest: string, path: seq<Step>)
    requires ':' !in host
    ensures NoErrors(VolumesIssues(List([Str(host)]), path)) <==> AlwaysUnderRoot(host)
    ensures NoErrors(VolumesIssues(List([Str(host + ":" + rest)]), path)) <==> AlwaysUnderRoot(host)
  {
    hide VolumeListIssues, AlwaysUnderRoot, UpTo;
    OnlyOneFront(host, rest);
    VolumeListAgrees([Str(host)], path);
    VolumeListAgrees([Str(host + ":" + rest)], path);
    assert [Str(host)][0] == Str(host) && [Str(host + ":" + rest)][0] == Str(host + ":" + rest);
    assert AcceptableVolume(Str(host)) <==> AlwaysUnderRoot(host);
    assert AcceptableVolume(Str(host + ":" + rest)) <==> AlwaysUnderRoot(host);
  }

  /** The long form: a tmpfs always, a volume never, anything else exactly when its source stays under every root. */
  lemma LongVolumeExactly(entry: Value, host: string, path: seq<Step>)
    requires entry.Map? && Field(entry, "source") == Str(host)
    ensures NoErrors(VolumesIssues(List([entry]), path)) <==>
            Field(entry, "type") == Str("tmpfs") || (Field(entry, "type") != Str("volume") && AlwaysUnderRoot(host))
  {
    hide VolumeListIssues, AlwaysUnderRoot, Field;
    VolumeListAgrees([entry], path);
    assert [entry][0] == entry;
    assert Mounts(entry, host);
  }

  lemma OnlyOneFront(host: string, rest: string)
    requires ':' !in host
    ensures forall other :: UpTo(host, ':', other) <==> other == host
    ensures forall other :: UpTo(host + ":" + rest, ':', other) <==> other == host
  {
    hide UpTo, Split;
    SplitWithoutSeparator(host, ':');
    SplitAtSeparator(host, ':', rest);
    assert host + ":" + rest == host + [':'] + rest;
    forall other
      ensures UpTo(host, ':', other) <==> other == host
      ensures UpTo(host + ":" + rest, ':', other) <==> other == host
    {
      FirstPieceIsUpTo(host, ':', other);
      FirstPieceIsUpTo(host + ":" + rest, ':', other);
    }
  }

  lemma TokenFirst(source: string)
    requires BindSources.Classify(source) == BindSources.Contained
    ensures StartsWith(source, BindSources.APP_DATA_TOKEN)
  {
    hide BindSources.FirstEscape, BindSources.SourceInterpolation, Split;
  }
}
