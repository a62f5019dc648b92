/** The Compose document validator (`packages/shared/src/compose-validate.ts`), over parsed values. */
module Compose {
  import opened Text
  import opened Values
  import BindSources

  // ---------------------------------------------------------------------------
  // Issues
  // ---------------------------------------------------------------------------

  datatype Severity = Error | Warning

  datatype Code =
    | InvalidYaml | UnsupportedKey | NoServices | InvalidServiceName | ReservedServiceName | InvalidService
    | ImageAndBuildConflict | MissingImageOrBuild | InvalidImageRef | ImageMissingTag | ImageMutableTag
    | HostPortNotAllowed | HostNetworkMode | ForeignNetworkMode
    | PrivilegedKey | SecurityOpt | PrivilegedService
    | InvalidEnvForm | DuplicateEnvKey
    | NamedVolume | VolumeOutside | VolumeEscapes | VolumeInterpolated
    | UndefinedNetwork | UndefinedSecret | FileSource

  /** A step of a field path such as `services.web.volumes[0]`. */
  datatype Step = Key(name: string) | At(index: nat)

  datatype Issue = Issue(code: Code, severity: Severity, path: seq<Step>)

  function Fault(code: Code, path: seq<Step>): Issue { Issue(code, Error, path) }

  /** The array every validator pushes to. */
  class IssueList {
    var items: seq<Issue>

    constructor ()
      ensures items == []
    {
      items := [];
    }

    method Push(i: Issue)
      modifies this
      ensures items == old(items) + [i]
    {
      items := items + [i];
    }
  }

  predicate NoErrors(issues: seq<Issue>) {
    forall i | 0 <= i < |issues| :: issues[i].severity == Warning
  }

  lemma NoErrorsOfOne()
    ensures NoErrors([])
    ensures forall x: Issue :: NoErrors([x]) <==> x.severity == Warning
  {
    forall x: Issue
      ensures NoErrors([x]) <==> x.severity == Warning
    {
      assert [x][0] == x;
    }
  }

  lemma NoErrorsConcat(a: seq<Issue>, b: seq<Issue>)
    ensures NoErrors(a + b) <==> NoErrors(a) && NoErrors(b)
  {
    assert forall i | 0 <= i < |a| :: (a + b)[i] == a[i];
    assert forall i | 0 <= i < |b| :: (a + b)[|a| + i] == b[i];
  }

  // ---------------------------------------------------------------------------
  // Image references
  // ---------------------------------------------------------------------------

  const MUTABLE_IMAGE_TAGS: set<string> := {
    "latest", "stable", "edge", "nightly", "rolling", "current", "lts",
    "dev", "devel", "develop", "main", "master", "mainline", "trunk",
    "release", "beta", "alpha", "rc", "canary", "next", "unstable" }

  function ImageTag(ref: string): Option<string> {
    var withoutDigest := Split(ref, '@')[0];
    var lastSegment := withoutDigest[LastIndexOf(withoutDigest, '/') + 1..];
    var colon := IndexOf(lastSegment, ':');
    if colon < 0 then None else Some(lastSegment[colon + 1..])
  }

  predicate NonBlankString(v: Value) { v.Str? && Trim(v.s) != "" }

  function ImageIssues(svc: Value, path: seq<Step>, imageRef: string -> bool): seq<Issue>
    requires svc.Map?
  {
    var image, hasBuild := Field(svc, "image"), !Absent(Field(svc, "build"));
    var hasImage := NonBlankString(image);
    (if hasImage && hasBuild then [Fault(ImageAndBuildConflict, path)]
     else if !hasImage && !hasBuild then [Fault(MissingImageOrBuild, path)]
     else []) +
    (if !hasImage then [] else ReferenceIssues(Trim(image.s), path + [Key("image")], imageRef))
  }

  function ReferenceIssues(ref: string, path: seq<Step>, imageRef: string -> bool): seq<Issue> {
    if !imageRef(ref) then [Fault(InvalidImageRef, path)]
    else if '@' in ref then []
    else
      var tag := ImageTag(ref);
      if tag.None? then [Fault(ImageMissingTag, path)]
      else if Lower(tag.value) in MUTABLE_IMAGE_TAGS then [Fault(ImageMutableTag, path)]
      else []
  }

  method ValidateImage(svc: Value, path: seq<Step>, imageRef: string -> bool, issues: IssueList)
    requires svc.Map?
    modifies issues
    ensures issues.items == old(issues.items) + ImageIssues(svc, path, imageRef)
  {
    hide Trim, Lower, ImageTag, Field, MUTABLE_IMAGE_TAGS;
    var image := Field(svc, "image");
    var hasImage := NonBlankString(image);
    var hasBuild := !Absent(Field(svc, "build"));
    if hasImage && hasBuild {
      issues.Push(Fault(ImageAndBuildConflict, path));
    } else if !hasImage && !hasBuild {
      issues.Push(Fault(MissingImageOrBuild, path));
    }
    if hasImage {
      var ref := Trim(image.s);
      if !imageRef(ref) {
        issues.Push(Fault(InvalidImageRef, path + [Key("image")]));
      } else if '@' !in ref {
        var tag := ImageTag(ref);
        if tag.None? {
          issues.Push(Fault(ImageMissingTag, path + [Key("image")]));
        } else if Lower(tag.value) in MUTABLE_IMAGE_TAGS {
          issues.Push(Fault(ImageMutableTag, path + [Key("image")]));
        }
      }
    }
  }

  // ---------------------------------------------------------------------------
  // Ports and network mode
  // ---------------------------------------------------------------------------

  function PortIssues(ports: Value, path: seq<Step>, n: nat): seq<Issue>
  {
    if !ports.List? || n == 0 then []
    else PortIssues(ports, path, n - 1) + [Fault(HostPortNotAllowed, path + [At(n - 1)])]
  }

  function ItemCount(v: Value): nat { if v.List? then |v.items| else 0 }

  method ValidatePorts(svc: Value, path: seq<Step>, issues: IssueList)
    requires svc.Map?
    modifies issues
    ensures var ports := Field(svc, "ports");
            issues.items == old(issues.items) + PortIssues(ports, path + [Key("ports")], ItemCount(ports))
  {
    var ports := Field(svc, "ports");
    if !ports.List? { return; }
    for i := 0 to |ports.items|
      invariant issues.items == old(issues.items) + PortIssues(ports, path + [Key("ports")], i)
    {
      issues.Push(Fault(HostPortNotAllowed, path + [Key("ports"), At(i)]));
      assert path + [Key("ports"), At(i)] == path + [Key("ports")] + [At(i)];
    }
  }

  function NetworkModeIssues(svc: Value, path: seq<Step>): seq<Issue>
    requires svc.Map?
  {
    var m := Field(svc, "network_mode");
    if !m.Str? then []
    else
      var mode := Lower(Trim(m.s));
      if mode == "host" then [Fault(HostNetworkMode, path + [Key("network_mode")])]
      else if StartsWith(mode, "container:") then [Fault(ForeignNetworkMode, path + [Key("network_mode")])]
      else []
  }

  method ValidateNetworkMode(svc: Value, path: seq<Step>, issues: IssueList)
    requires svc.Map?
    modifies issues
    ensures issues.items == old(issues.items) + NetworkModeIssues(svc, path)
  {
    var m := Field(svc, "network_mode");
    if !m.Str? { return; }
    var mode := Lower(Trim(m.s));
    if mode == "host" {
      issues.Push(Fault(HostNetworkMode, path + [Key("network_mode")]));
      return;
    }
    if StartsWith(mode, "container:") {
      issues.Push(Fault(ForeignNetworkMode, path + [Key("network_mode")]));
    }
  }

  // ---------------------------------------------------------------------------
  // Privileges
  // ---------------------------------------------------------------------------

  const PRIVILEGE_BEARING_KEYS: seq<string> := [
    "pid", "ipc", "uts", "cgroup", "devices", "device_cgroup_rules", "cap_add", "group_add",
    "env_file", "extends", "userns_mode", "sysctls", "cgroup_parent", "runtime", "volumes_from" ]

  const ALLOWED_SECURITY_OPT := "no-new-privileges:true"

  function CarriesValue(v: Value): bool {
    match v
    case Undefined => false
    case Null => false
    case List(items) => |items| > 0
    case Str(s) => Trim(s) != ""
    case Map(entries) => |entries| > 0
    case Bool(b) => b
    case Number(_) => true
  }

  function PrivilegeKeyIssues(svc: Value, path: seq<Step>, keys: seq<string>): seq<Issue>
    requires svc.Map?
  {
    if keys == [] then []
    else
      var key := keys[|keys| - 1];
      PrivilegeKeyIssues(svc, path, keys[..|keys| - 1]) +
      (if CarriesValue(Field(svc, key)) then [Fault(PrivilegedKey, path + [Key(key)])] else [])
  }

  predicate AllowedSecurityOpt(v: Value) { v.Str? && Trim(v.s) == ALLOWED_SECURITY_OPT }

  /** A bare value is checked as a list of one, reported without an index. */
  function SecurityOptEntries(opt: Value): seq<Value> {
    if opt.List? then opt.items else [opt]
  }

  function SecurityOptPath(opt: Value, path: seq<Step>, i: nat): seq<Step> {
    if opt.List? then path + [Key("security_opt"), At(i)] else path + [Key("security_opt")]
  }

  function SecurityOptIssues(opt: Value, path: seq<Step>, n: nat): seq<Issue>
    requires n <= |SecurityOptEntries(opt)|
  {
    if n == 0 then []
    else
      SecurityOptIssues(opt, path, n - 1) +
      (if AllowedSecurityOpt(SecurityOptEntries(opt)[n - 1]) then []
       else [Fault(SecurityOpt, SecurityOptPath(opt, path, n - 1))])
  }

  function PrivilegeIssues(svc: Value, path: seq<Step>): seq<Issue>
    requires svc.Map?
  {
    var opt, privileged := Field(svc, "security_opt"), Field(svc, "privileged");
    PrivilegeKeyIssues(svc, path, PRIVILEGE_BEARING_KEYS) +
    (if CarriesValue(opt) then SecurityOptIssues(opt, path, |SecurityOptEntries(opt)|) else []) +
    (if Absent(privileged) || privileged == Bool(false) then []
     else [Issue(PrivilegedService, Warning, path + [Key("privileged")])])
  }

  method ValidatePrivilegeKeys(svc: Value, path: seq<Step>, keys: seq<string>, issues: IssueList)
    requires svc.Map?
    modifies issues
    ensures issues.items == old(issues.items) + PrivilegeKeyIssues(svc, path, keys)
  {
    hide CarriesValue, Field;
    for k := 0 to |keys|
      invariant issues.items == old(issues.items) + PrivilegeKeyIssues(svc, path, keys[..k])
    {
      assert keys[..k + 1][..k] == keys[..k];
      if CarriesValue(Field(svc, keys[k])) {
        issues.Push(Fault(PrivilegedKey, path + [Key(keys[k])]));
      }
    }
    assert keys[..|keys|] == keys;
  }

  method ValidateSecurityOpt(opt: Value, path: seq<Step>, issues: IssueList)
    modifies issues
    ensures issues.items == old(issues.items) + SecurityOptIssues(opt, path, |SecurityOptEntries(opt)|)
  {
    hide AllowedSecurityOpt, SecurityOptPath;
    var entries := SecurityOptEntries(opt);
    for i := 0 to |entries|
      invariant issues.items == old(issues.items) + SecurityOptIssues(opt, path, i)
    {
      if AllowedSecurityOpt(entries[i]) { continue; }
      issues.Push(Fault(SecurityOpt, SecurityOptPath(opt, path, i)));
    }
  }

  method ValidatePrivileges(svc: Value, path: seq<Step>, issues: IssueList)
    requires svc.Map?
    modifies issues
    ensures issues.items == old(issues.items) + PrivilegeIssues(svc, path)
  {
    hide CarriesValue, Field, PrivilegeKeyIssues, SecurityOptIssues, PRIVILEGE_BEARING_KEYS;
    ValidatePrivilegeKeys(svc, path, PRIVILEGE_BEARING_KEYS, issues);
    var opt := Field(svc, "security_opt");
    if CarriesValue(opt) {
      ValidateSecurityOpt(opt, path, issues);
    }
    var privileged := Field(svc, "privileged");
    if !Absent(privileged) && privileged != Bool(false) {
      issues.Push(Issue(PrivilegedService, Warning, path + [Key("privileged")]));
    }
  }

  // ---------------------------------------------------------------------------
  // Environment
  // ---------------------------------------------------------------------------

  predicate IsEnvKey(key: string) {
    && key != "" && BindSources.IsIdentifierStart(key[0])
    && forall i | 0 <= i < |key| :: BindSources.IsIdentifierPart(key[i])
  }

  /** The name of a `KEY=value` entry. */
  function EnvName(entry: string): string { Split(entry, '=')[0] }

  /** The well-formed names among the first entries. */
  function NamesSeen(items: seq<Value>): set<string> {
    if items == [] then {}
    else
      var e := items[|items| - 1];
      NamesSeen(items[..|items| - 1]) + (if e.Str? && IsEnvKey(EnvName(e.s)) then {EnvName(e.s)} else {})
  }

  function EnvEntryIssues(e: Value, path: seq<Step>, seen: set<string>): seq<Issue> {
    if !e.Str? || !IsEnvKey(EnvName(e.s)) then [Fault(InvalidEnvForm, path)]
    else if EnvName(e.s) in seen then [Issue(DuplicateEnvKey, Warning, path)]
    else []
  }

  function EnvListIssues(items: seq<Value>, path: seq<Step>): seq<Issue> {
    if items == [] then []
    else
      var n := |items| - 1;
      EnvListIssues(items[..n], path) + EnvEntryIssues(items[n], path + [At(n)], NamesSeen(items[..n]))
  }

  function EnvMapIssues(entries: seq<(string, Value)>, path: seq<Step>): seq<Issue> {
    if entries == [] then []
    else
      var key := entries[|entries| - 1].0;
      EnvMapIssues(entries[..|entries| - 1], path) +
      (if IsEnvKey(key) then [] else [Fault(InvalidEnvForm, path + [Key(key)])])
  }

  function EnvironmentIssues(env: Value, path: seq<Step>): seq<Issue> {
    if Absent(env) then []
    else if env.List? then EnvListIssues(env.items, path)
    else if env.Map? then EnvMapIssues(env.entries, path)
    else [Fault(InvalidEnvForm, path)]
  }

  method ValidateEnvironmentList(items: seq<Value>, path: seq<Step>, issues: IssueList)
    modifies issues
    ensures issues.items == old(issues.items) + EnvListIssues(items, path)
  {
    hide IsEnvKey, EnvName;
    var seen: set<string> := {};
    for i := 0 to |items|
      invariant seen == NamesSeen(items[..i])
      invariant issues.items == old(issues.items) + EnvListIssues(items[..i], path)
    {
      assert items[..i + 1][..i] == items[..i];
      var entry := items[i];
      if !entry.Str? || !IsEnvKey(EnvName(entry.s)) {
        issues.Push(Fault(InvalidEnvForm, path + [At(i)]));
        continue;
      }
      var key := EnvName(entry.s);
      if key in seen {
        issues.Push(Issue(DuplicateEnvKey, Warning, path + [At(i)]));
      }
      seen := seen + {key};
    }
    assert items[..|items|] == items;
  }

  method ValidateEnvironmentMap(entries: seq<(string, Value)>, path: seq<Step>, issues: IssueList)
    modifies issues
    ensures issues.items == old(issues.items) + EnvMapIssues(entries, path)
  {
    hide IsEnvKey;
    for i := 0 to |entries|
      invariant issues.items == old(issues.items) + EnvMapIssues(entries[..i], path)
    {
      assert entries[..i + 1][..i] == entries[..i];
      var key := entries[i].0;
      if !IsEnvKey(key) {
        issues.Push(Fault(InvalidEnvForm, path + [Key(key)]));
      }
    }
    assert entries[..|entries|] == entries;
  }

  method ValidateEnvironment(env: Value, path: seq<Step>, issues: IssueList)
    modifies issues
    ensures issues.items == old(issues.items) + EnvironmentIssues(env, path)
  {
    if Absent(env) { return; }
    if env.List? {
      ValidateEnvironmentList(env.items, path, issues);
    } else if env.Map? {
      ValidateEnvironmentMap(env.entries, path, issues);
    } else {
      issues.Push(Fault(InvalidEnvForm, path));
    }
  }

  // ---------------------------------------------------------------------------
  // Volumes
  // ---------------------------------------------------------------------------

  /** The source half of a volume entry, when it has one. */
  function VolumeSource(entry: Value): Option<string> {
    if entry.Str? then Some(Split(entry.s, ':')[0])
    else if entry.Map? && Field(entry, "source").Str? then Some(Field(entry, "source").s)
    else None
  }

  predicate IsTmpfs(entry: Value) { entry.Map? && Field(entry, "type") == Str("tmpfs") }

  predicate IsNamedVolume(entry: Value) {
    var source := VolumeSource(entry);
    && source.Some? && source.value != ""
    && (if entry.Str? then
          '/' !in source.value && source.value[0] != '.' && source.value[0] != '~' && source.value[0] != '$'
        else entry.Map? && Field(entry, "type") == Str("volume"))
  }

  function VolumeIssues(entry: Value, path: seq<Step>): seq<Issue> {
    if IsTmpfs(entry) then []
    else if IsNamedVolume(entry) then [Fault(NamedVolume, path)]
    else if VolumeSource(entry).None? then []
    else
      match BindSources.Classify(VolumeSource(entry).value)
      case Contained => []
      case Outside => [Fault(VolumeOutside, path)]
      case Escapes(_) => [Fault(VolumeEscapes, path)]
      case Interpolated => [Fault(VolumeInterpolated, path)]
  }

  function VolumeListIssues(items: seq<Value>, path: seq<Step>): seq<Issue> {
    if items == [] then []
    else
      var n := |items| - 1;
      VolumeListIssues(items[..n], path) + VolumeIssues(items[n], path + [At(n)])
  }

  function VolumesIssues(vols: Value, path: seq<Step>): seq<Issue> {
    if vols.List? then VolumeListIssues(vols.items, path) else []
  }

  method ValidateVolume(entry: Value, path: seq<Step>, issues: IssueList)
    modifies issues
    ensures issues.items == old(issues.items) + VolumeIssues(entry, path)
  {
    hide IsNamedVolume, IsTmpfs, VolumeSource, BindSources.Classify;
    if IsTmpfs(entry) { return; }
    var source := VolumeSource(entry);
    if IsNamedVolume(entry) {
      issues.Push(Fault(NamedVolume, path));
      return;
    }
    if source.Some? {
      var containment := BindSources.AppDataContainment(source.value);
      match containment {
        case Contained =>
        case Outside => issues.Push(Fault(VolumeOutside, path));
        case Escapes(_) => issues.Push(Fault(VolumeEscapes, path));
        case Interpolated => issues.Push(Fault(VolumeInterpolated, path));
      }
    }
  }

  method ValidateVolumes(vols: Value, path: seq<Step>, issues: IssueList)
    modifies issues
    ensures issues.items == old(issues.items) + VolumesIssues(vols, path)
  {
    hide VolumeIssues;
    if !vols.List? { return; }
    var items := vols.items;
    for i := 0 to |items|
      invariant issues.items == old(issues.items) + VolumeListIssues(items[..i], path)
    {
      assert items[..i + 1][..i] == items[..i];
      ValidateVolume(items[i], path + [At(i)], issues);
    }
    assert items[..|items|] == items;
  }

  // ---------------------------------------------------------------------------
  // Networks, secrets, file sources
  // ---------------------------------------------------------------------------

  /** The names of top-level resources. */
  function DefinedNames(block: Value): set<string> {
    if block.Map? then set k | k in Keys(block.entries) else {}
  }

  function Strings(items: seq<Value>): seq<string> {
    if items == [] then []
    else
      var e := items[|items| - 1];
      Strings(items[..|items| - 1]) + (if e.Str? then [e.s] else [])
  }

  function NetworkRefs(nets: Value): seq<string> {
    if nets.List? then Strings(nets.items) else if nets.Map? then Keys(nets.entries) else []
  }

  predicate KnownNetwork(name: string, defined: set<string>) { name == "default" || name in defined }

  function NetworkRefIssues(refs: seq<string>, path: seq<Step>, defined: set<string>): seq<Issue> {
    if refs == [] then []
    else
      NetworkRefIssues(refs[..|refs| - 1], path, defined) +
      (if KnownNetwork(refs[|refs| - 1], defined) then [] else [Fault(UndefinedNetwork, path)])
  }

  method ValidateNetworks(nets: Value, path: seq<Step>, defined: set<string>, issues: IssueList)
    modifies issues
    ensures issues.items == old(issues.items) + NetworkRefIssues(NetworkRefs(nets), path, defined)
  {
    if Absent(nets) { return; }
    var refs := NetworkRefs(nets);
    for i := 0 to |refs|
      invariant issues.items == old(issues.items) + NetworkRefIssues(refs[..i], path, defined)
    {
      assert refs[..i + 1][..i] == refs[..i];
      if refs[i] == "default" { continue; }
      if refs[i] !in defined {
        issues.Push(Fault(UndefinedNetwork, path));
      }
    }
    assert refs[..|refs|] == refs;
  }

  /** The name a secret reference uses, when it has one. */
  function SecretName(entry: Value): Option<string> {
    if entry.Str? then Some(entry.s)
    else if entry.Map? && Field(entry, "source").Str? then Some(Field(entry, "source").s)
    else None
  }

  predicate KnownSecret(entry: Value, defined: set<string>) {
    SecretName(entry).Some? && SecretName(entry).value != "" ==> SecretName(entry).value in defined
  }

  function SecretListIssues(items: seq<Value>, path: seq<Step>, defined: set<string>): seq<Issue> {
    if items == [] then []
    else
      var n := |items| - 1;
      SecretListIssues(items[..n], path, defined) +
      (if KnownSecret(items[n], defined) then [] else [Fault(UndefinedSecret, path + [At(n)])])
  }

  function SecretsIssues(secs: Value, path: seq<Step>, defined: set<string>): seq<Issue> {
    if secs.List? then SecretListIssues(secs.items, path, defined) else []
  }

  method ValidateSecrets(secs: Value, path: seq<Step>, defined: set<string>, issues: IssueList)
    modifies issues
    ensures issues.items == old(issues.items) + SecretsIssues(secs, path, defined)
  {
    if !secs.List? { return; }
    var items := secs.items;
    for i := 0 to |items|
      invariant issues.items == old(issues.items) + SecretListIssues(items[..i], path, defined)
    {
      assert items[..i + 1][..i] == items[..i];
      var name := SecretName(items[i]);
      if name.Some? && name.value != "" && name.value !in defined {
        issues.Push(Fault(UndefinedSecret, path + [At(i)]));
      }
    }
    assert items[..|items|] == items;
  }

  predicate ReadsHostFile(def: Value) { def.Map? && NonBlankString(Field(def, "file")) }

  function FileSourceIssues(entries: seq<(string, Value)>, kind: string): seq<Issue> {
    if entries == [] then []
    else
      var last := entries[|entries| - 1];
      FileSourceIssues(entries[..|entries| - 1], kind) +
      (if ReadsHostFile(last.1) then [Fault(FileSource, [Key(kind), Key(last.0), Key("file")])] else [])
  }

  function FileSourcesIssues(block: Value, kind: string): seq<Issue> {
    if block.Map? then FileSourceIssues(block.entries, kind) else []
  }

  method ValidateFileSources(block: Value, kind: string, issues: IssueList)
    modifies issues
    ensures issues.items == old(issues.items) + FileSourcesIssues(block, kind)
  {
    hide ReadsHostFile;
    if !block.Map? { return; }
    var entries := block.entries;
    for i := 0 to |entries|
      invariant issues.items == old(issues.items) + FileSourceIssues(entries[..i], kind)
    {
      assert entries[..i + 1][..i] == entries[..i];
      var entry := entries[i];
      if ReadsHostFile(entry.1) {
        issues.Push(Fault(FileSource, [Key(kind), Key(entry.0), Key("file")]));
      }
    }
    assert entries[..|entries|] == entries;
  }

  // ---------------------------------------------------------------------------
  // Services and the document
  // ---------------------------------------------------------------------------

  const RESERVED_SERVICE_NAMES: set<string> := {"hola-docker-proxy"}

  const SUPPORTED_TOP_LEVEL_KEYS: set<string> := {
    "version", "name", "services", "volumes", "networks", "secrets", "configs" }

  predicate IsServiceName(name: string) {
    && name != "" && IsAlnum(name[0])
    && forall i | 0 <= i < |name| :: IsAlnum(name[i]) || name[i] == '_' || name[i] == '.' || name[i] == '-'
  }

  function ServicePath(name: string): seq<Step> { [Key("services"), Key(name)] }

  /** The checks of a service that is a mapping. */
  function ServiceBodyIssues(svc: Value, path: seq<Step>, doc: Value, imageRef: string -> bool): seq<Issue>
    requires svc.Map? && doc.Map?
  {
    var ports := Field(svc, "ports");
    ImageIssues(svc, path, imageRef) +
    PortIssues(ports, path + [Key("ports")], ItemCount(ports)) +
    NetworkModeIssues(svc, path) +
    PrivilegeIssues(svc, path) +
    EnvironmentIssues(Field(svc, "environment"), path + [Key("environment")]) +
    VolumesIssues(Field(svc, "volumes"), path + [Key("volumes")]) +
    NetworkRefIssues(NetworkRefs(Field(svc, "networks")), path + [Key("networks")],
                     DefinedNames(Field(doc, "networks"))) +
    SecretsIssues(Field(svc, "secrets"), path + [Key("secrets")], DefinedNames(Field(doc, "secrets")))
  }

  function ServiceIssues(name: string, svc: Value, doc: Value, imageRef: string -> bool): seq<Issue>
    requires doc.Map?
  {
    var path := ServicePath(name);
    (if IsServiceName(name) then [] else [Fault(InvalidServiceName, path)]) +
    (if name in RESERVED_SERVICE_NAMES then [Fault(ReservedServiceName, path)] else []) +
    (if svc.Map? then ServiceBodyIssues(svc, path, doc, imageRef) else [Fault(InvalidService, path)])
  }

  function ServiceListIssues(services: seq<(string, Value)>, doc: Value, imageRef: string -> bool): seq<Issue>
    requires doc.Map?
  {
    if services == [] then []
    else
      var last := services[|services| - 1];
      ServiceListIssues(services[..|services| - 1], doc, imageRef) + ServiceIssues(last.0, last.1, doc, imageRef)
  }

  function TopLevelKeyIssues(keys: seq<string>): seq<Issue> {
    if keys == [] then []
    else
      var key := keys[|keys| - 1];
      TopLevelKeyIssues(keys[..|keys| - 1]) +
      (if key in SUPPORTED_TOP_LEVEL_KEYS then [] else [Issue(UnsupportedKey, Warning, [Key(key)])])
  }

  function DocumentIssues(doc: Value, imageRef: string -> bool): seq<Issue> {
    if !doc.Map? then [Fault(InvalidYaml, [])]
    else
      var services := Field(doc, "services");
      TopLevelKeyIssues(Keys(doc.entries)) +
      (if !services.Map? || services.entries == [] then [Fault(NoServices, [Key("services")])]
       else
         FileSourcesIssues(Field(doc, "secrets"), "secrets") +
         FileSourcesIssues(Field(doc, "configs"), "configs") +
         ServiceListIssues(services.entries, doc, imageRef))
  }

  lemma Regroup(start: seq<Issue>, done: seq<Issue>, more: seq<Issue>)
    ensures start + done + more == start + (done + more)
  {}

  method ValidateServiceBody(svc: Value, path: seq<Step>, doc: Value, imageRef: string -> bool, issues: IssueList)
    requires svc.Map? && doc.Map?
    modifies issues
    ensures issues.items == old(issues.items) + ServiceBodyIssues(svc, path, doc, imageRef)
  {
    hide ImageIssues, PortIssues, NetworkModeIssues, PrivilegeIssues, EnvironmentIssues, VolumesIssues,
      NetworkRefIssues, SecretsIssues, Field, NetworkRefs, DefinedNames, ItemCount;
    ghost var start, done := issues.items, ImageIssues(svc, path, imageRef);
    ValidateImage(svc, path, imageRef, issues);

    ghost var more := PortIssues(Field(svc, "ports"), path + [Key("ports")], ItemCount(Field(svc, "ports")));
    ValidatePorts(svc, path, issues);
    Regroup(start, done, more);
    done, more := done + more, NetworkModeIssues(svc, path);
    ValidateNetworkMode(svc, path, issues);
    Regroup(start, done, more);
    done, more := done + more, PrivilegeIssues(svc, path);
    ValidatePrivileges(svc, path, issues);
    Regroup(start, done, more);
    done, more := done + more, EnvironmentIssues(Field(svc, "environment"), path + [Key("environment")]);
    ValidateEnvironment(Field(svc, "environment"), path + [Key("environment")], issues);
    Regroup(start, done, more);
    done, more := done + more, VolumesIssues(Field(svc, "volumes"), path + [Key("volumes")]);
    ValidateVolumes(Field(svc, "volumes"), path + [Key("volumes")], issues);
    Regroup(start, done, more);
    var networks, secrets := DefinedNames(Field(doc, "networks")), DefinedNames(Field(doc, "secrets"));
    var refs := NetworkRefs(Field(svc, "networks"));
    done, more := done + more, NetworkRefIssues(refs, path + [Key("networks")], networks);
    ValidateNetworks(Field(svc, "networks"), path + [Key("networks")], networks, issues);
    Regroup(start, done, more);
    done, more := done + more, SecretsIssues(Field(svc, "secrets"), path + [Key("secrets")], secrets);
    ValidateSecrets(Field(svc, "secrets"), path + [Key("secrets")], secrets, issues);
    Regroup(start, done, more);
  }

  method ValidateService(name: string, svc: Value, doc: Value, imageRef: string -> bool, issues: IssueList)
    requires doc.Map?
    modifies issues
    ensures issues.items == old(issues.items) + ServiceIssues(name, svc, doc, imageRef)
  {
    hide IsServiceName, ServiceBodyIssues;
    var path := ServicePath(name);
    if !IsServiceName(name) {
      issues.Push(Fault(InvalidServiceName, path));
    }
    if name in RESERVED_SERVICE_NAMES {
      issues.Push(Fault(ReservedServiceName, path));
    }
    if !svc.Map? {
      issues.Push(Fault(InvalidService, path));
      return;
    }
    ValidateServiceBody(svc, path, doc, imageRef, issues);
  }

  method ValidateServices(services: seq<(string, Value)>, doc: Value, imageRef: string -> bool, issues: IssueList)
    requires doc.Map?
    modifies issues
    ensures issues.items == old(issues.items) + ServiceListIssues(services, doc, imageRef)
  {
    hide ServiceIssues;
    for i := 0 to |services|
      invariant issues.items == old(issues.items) + ServiceListIssues(services[..i], doc, imageRef)
    {
      assert services[..i + 1][..i] == services[..i];
      var last := services[i];
      ValidateService(last.0, last.1, doc, imageRef, issues);
      Regroup(old(issues.items), ServiceListIssues(services[..i], doc, imageRef),
              ServiceIssues(last.0, last.1, doc, imageRef));
    }
    assert services[..|services|] == services;
  }

  method ValidateTopLevelKeys(doc: Value, issues: IssueList)
    requires doc.Map?
    modifies issues
    ensures issues.items == old(issues.items) + TopLevelKeyIssues(Keys(doc.entries))
  {
    var keys := Keys(doc.entries);
    for k := 0 to |keys|
      invariant issues.items == old(issues.items) + TopLevelKeyIssues(keys[..k])
    {
      assert keys[..k + 1][..k] == keys[..k];
      if keys[k] !in SUPPORTED_TOP_LEVEL_KEYS {
        issues.Push(Issue(UnsupportedKey, Warning, [Key(keys[k])]));
      }
    }
    assert keys[..|keys|] == keys;
  }

  method ValidateComposeObject(doc: Value, imageRef: string -> bool) returns (issues: IssueList)
    ensures fresh(issues) && issues.items == DocumentIssues(doc, imageRef)
  {
    hide ServiceListIssues, FileSourcesIssues, TopLevelKeyIssues;
    issues := new IssueList();
    if !doc.Map? {
      issues.Push(Fault(InvalidYaml, []));
      return;
    }
    ValidateTopLevelKeys(doc, issues);
    var services := Field(doc, "services");
    if !services.Map? || |services.entries| == 0 {
      issues.Push(Fault(NoServices, [Key("services")]));
      return;
    }
    ValidateFileSources(Field(doc, "secrets"), "secrets", issues);
    ValidateFileSources(Field(doc, "configs"), "configs", issues);
    ValidateServices(services.entries, doc, imageRef, issues);
  }
}
