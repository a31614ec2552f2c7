/** The schema registry: two maps that `Register` keeps as an index over the log of accepted
    registrations, and the resolution of references through them. */
module SchemaRegistry {
  import opened Options
  import opened Strings

  datatype Ref = Ref(schemaVersion: string, docType: string)

  datatype Registration = Registration(ref: Ref, location: string, assetVersion: string)

  datatype RegisterError = EmptyRef | EmptyLocation

  // ---------- reading version strings ----------

  function ToLowerChar(c: char): char {
    if 'A' <= c <= 'Z' then c - 'A' + 'a' else c
  }

  function ToLower(s: string): string {
    if s == "" then "" else [ToLowerChar(s[0])] + ToLower(s[1..])
  }

  function SingularDocumentType(subject: string): string {
    var s := TrimSpace(ToLower(subject));
    if s == "" then ""
    else if HasSuffix(s, "ies") && |s| > 3 then s[..|s| - 3] + "y"
    else if HasSuffix(s, "s") && !HasSuffix(s, "ss") then s[..|s| - 1]
    else s
  }

  /** `<subject>[.<domain>]/<asset version>` as (singular document type, asset version). */
  function ParseSchemaVersion(schemaVersion: string): Option<(string, string)> {
    var text := TrimSpace(schemaVersion);
    var slash := IndexOf(text, "/");
    if slash < 0 || slash == 0 || text[slash + 1..] == "" then None
    else
      var dot := IndexOf(text[..slash], ".");
      var docType := SingularDocumentType(if dot >= 0 then text[..slash][..dot] else text[..slash]);
      if docType == "" then None else Some((docType, text[slash + 1..]))
  }

  function SegmentAfter(segments: seq<string>, name: string): string {
    if |segments| < 2 then ""
    else if segments[0] == name then segments[1]
    else SegmentAfter(segments[1..], name)
  }

  function AssetPath(location: string): string {
    var i := IndexOf(location, "#");
    if i < 0 then location else location[..i]
  }

  /** The path segment that follows the first `constructs`. */
  function AssetVersion(location: string): string {
    SegmentAfter(Split(AssetPath(location), "/"), "constructs")
  }

  method AssetVersionFromLocation(location: string) returns (version: string)
    ensures version == AssetVersion(location)
  {
    var segments := Split(AssetPath(location), "/");
    assert segments[0..] == segments;
    for index := 0 to |segments| - 1
      invariant SegmentAfter(segments[index..], "constructs") == SegmentAfter(segments, "constructs")
    {
      assert segments[index..][1..] == segments[index + 1..];
      if segments[index] == "constructs" {
        return segments[index + 1];
      }
    }
    return "";
  }

  // ---------- the log and the scans over it ----------

  function Normalized(r: Registration): Registration {
    var location := TrimSpace(r.location);
    r.(location := location, assetVersion := if r.assetVersion == "" then AssetVersion(location) else r.assetVersion)
  }

  function Rejected(r: Registration): Option<RegisterError> {
    if r.ref == Ref("", "") then Some(EmptyRef)
    else if TrimSpace(r.location) == "" then Some(EmptyLocation)
    else None
  }

  datatype Query =
    | ByVersion(schemaVersion: string)
    | ByType(docType: string)
    | ByAsset(docType: string, version: string)

  predicate Matches(q: Query, r: Registration) {
    match q
    case ByVersion(v) => r.ref.schemaVersion == v
    case ByType(t) => r.ref.docType == t
    case ByAsset(t, v) => r.ref.docType == t && r.assetVersion == v
  }

  /** The last registration that matches. */
  function Last(log: seq<Registration>, q: Query): Option<Registration> {
    if log == [] then None
    else if Matches(q, log[|log| - 1]) then Some(log[|log| - 1])
    else Last(log[..|log| - 1], q)
  }

  /** The last registration for the type and asset version that a schema version spells out, if the
      explicit type, when given, is that type. */
  function LastDerived(log: seq<Registration>, schemaVersion: string, explicitType: string): Option<Registration> {
    match ParseSchemaVersion(schemaVersion)
    case None => None
    case Some((docType, version)) =>
      if explicitType != "" && explicitType != docType then None else Last(log, ByAsset(docType, version))
  }

  /** Resolution as a scan of the log: by exact version, else by derived version, with no fallback to the
      type; by type only when no version is given. */
  function Scan(log: seq<Registration>, ref: Ref): Option<Registration> {
    if ref.schemaVersion != "" then
      var exact := Last(log, ByVersion(ref.schemaVersion));
      if exact.Some? then exact else LastDerived(log, ref.schemaVersion, ref.docType)
    else if ref.docType != "" then Last(log, ByType(ref.docType))
    else None
  }

  // ---------- the validator ----------

  function SchemaVersionKey(schemaVersion: string): string {
    "schemaVersion:" + schemaVersion
  }

  function TypeKey(docType: string): string {
    "type:" + docType
  }

  lemma KeysApart(a: string, b: string)
    ensures SchemaVersionKey(a) != TypeKey(b)
    ensures SchemaVersionKey(a) == SchemaVersionKey(b) <==> a == b
    ensures TypeKey(a) == TypeKey(b) <==> a == b
  {
    assert SchemaVersionKey(a)[0] == 's' && TypeKey(b)[0] == 't';
    assert SchemaVersionKey(a)[14..] == a && SchemaVersionKey(b)[14..] == b;
    assert TypeKey(a)[5..] == a && TypeKey(b)[5..] == b;
  }

  type Index = map<string, Registration>

  function Find<K, V>(m: map<K, V>, k: K): Option<V> {
    if k in m then Some(m[k]) else None
  }

  function Find2(m: map<string, Index>, t: string, v: string): Option<Registration> {
    if t in m then Find(m[t], v) else None
  }

  /** The maps answer every lookup as a scan of the log would. */
  ghost predicate Indexes(registrations: Index, typeVersions: map<string, Index>, log: seq<Registration>) {
    && SchemaVersionKey("") !in registrations
    && (forall v :: v != "" ==> Find(registrations, SchemaVersionKey(v)) == Last(log, ByVersion(v)))
    && (forall t :: t != "" ==> Find(registrations, TypeKey(t)) == Last(log, ByType(t)))
    && (forall t, v :: t != "" && v != "" ==> Find2(typeVersions, t, v) == Last(log, ByAsset(t, v)))
  }

  lemma IndexVersion(registrations: Index, typeVersions: map<string, Index>, log: seq<Registration>, r: Registration)
    requires Indexes(registrations, typeVersions, log)
    ensures var key := SchemaVersionKey(r.ref.schemaVersion);
            var registrations' := if r.ref.schemaVersion != "" then registrations[key := r] else registrations;
            && SchemaVersionKey("") !in registrations'
            && (forall v :: v != "" ==> Find(registrations', SchemaVersionKey(v)) == Last(log + [r], ByVersion(v)))
            && (forall t :: t != "" ==> Find(registrations', TypeKey(t)) == Last(log, ByType(t)))
  {
    assert (log + [r])[..|log|] == log;
    forall v, t ensures SchemaVersionKey(v) != TypeKey(t) && (SchemaVersionKey(v) == SchemaVersionKey(t) <==> v == t) {
      KeysApart(v, t);
    }
  }

  lemma IndexType(registrations: Index, log: seq<Registration>, r: Registration)
    requires SchemaVersionKey("") !in registrations
    requires forall v :: v != "" ==> Find(registrations, SchemaVersionKey(v)) == Last(log + [r], ByVersion(v))
    requires forall t :: t != "" ==> Find(registrations, TypeKey(t)) == Last(log, ByType(t))
    ensures var registrations' :=
              if r.ref.docType != "" then registrations[TypeKey(r.ref.docType) := r] else registrations;
            && SchemaVersionKey("") !in registrations'
            && (forall v :: v != "" ==> Find(registrations', SchemaVersionKey(v)) == Last(log + [r], ByVersion(v)))
            && (forall t :: t != "" ==> Find(registrations', TypeKey(t)) == Last(log + [r], ByType(t)))
  {
    assert (log + [r])[..|log|] == log;
    forall v, t ensures SchemaVersionKey(v) != TypeKey(t) && (TypeKey(v) == TypeKey(t) <==> v == t) {
      KeysApart(v, t);
    }
  }

  /** Adds a registration to the versions of its type. */
  function WithVersion(typeVersions: map<string, Index>, r: Registration): map<string, Index> {
    var versions := if r.ref.docType in typeVersions then typeVersions[r.ref.docType] else map[];
    typeVersions[r.ref.docType := versions[r.assetVersion := r]]
  }

  lemma IndexTypeVersions(typeVersions: map<string, Index>, log: seq<Registration>, r: Registration)
    requires forall t, v :: t != "" && v != "" ==> Find2(typeVersions, t, v) == Last(log, ByAsset(t, v))
    ensures var typeVersions' :=
              if r.ref.docType != "" && r.assetVersion != "" then WithVersion(typeVersions, r) else typeVersions;
            forall t, v :: t != "" && v != "" ==> Find2(typeVersions', t, v) == Last(log + [r], ByAsset(t, v))
  {
    assert (log + [r])[..|log|] == log;
  }

  class Validator {
    var registrations: Index
    var typeVersions: map<string, Index>
    ghost var log: seq<Registration>

    ghost predicate Valid()
      reads this
    {
      Indexes(registrations, typeVersions, log)
    }

    constructor ()
      ensures Valid() && log == []
    {
      registrations, typeVersions, log := map[], map[], [];
    }

    method Register(r: Registration) returns (err: Option<RegisterError>)
      requires Valid()
      modifies this
      ensures Valid() && err == Rejected(r)
      ensures log == if err.None? then old(log) + [Normalized(r)] else old(log)
    {
      if r.ref.schemaVersion == "" && r.ref.docType == "" {
        return Some(EmptyRef);
      }
      var registration := r.(location := TrimSpace(r.location));
      if registration.location == "" {
        return Some(EmptyLocation);
      }
      if registration.assetVersion == "" {
        var version := AssetVersionFromLocation(registration.location);
        registration := registration.(assetVersion := version);
      }
      Store(registration);
      return None;
    }

    /** The entry under type and asset version. */
    method StoreVersion(registration: Registration)
      modifies this`typeVersions
      ensures typeVersions == WithVersion(old(typeVersions), registration)
    {
      if registration.ref.docType !in typeVersions {
        typeVersions := typeVersions[registration.ref.docType := map[]];
      }
      typeVersions := typeVersions[registration.ref.docType :=
        typeVersions[registration.ref.docType][registration.assetVersion := registration]];
    }

    /** The updates made under the lock. */
    method Store(registration: Registration)
      requires Valid()
      modifies this
      ensures Valid() && log == old(log) + [registration]
    {
      IndexVersion(registrations, typeVersions, log, registration);
      IndexTypeVersions(typeVersions, log, registration);
      if registration.ref.schemaVersion != "" {
        registrations := registrations[SchemaVersionKey(registration.ref.schemaVersion) := registration];
      }
      IndexType(registrations, log, registration);
      if registration.ref.docType != "" {
        if registration.assetVersion != "" {
          StoreVersion(registration);
        }
        registrations := registrations[TypeKey(registration.ref.docType) := registration];
      }
      log := log + [registration];
    }

    function ResolveByDerivedSchemaVersion(schemaVersion: string, explicitType: string): (r: Option<Registration>)
      requires Valid()
      reads this
      ensures r == LastDerived(log, schemaVersion, explicitType)
    {
      ParsedNonEmpty(schemaVersion);
      match ParseSchemaVersion(schemaVersion)
      case None => None
      case Some((docType, version)) =>
        if explicitType != "" && explicitType != docType then None
        else
          assert Find2(typeVersions, docType, version) == Last(log, ByAsset(docType, version));
          if docType in typeVersions then Find(typeVersions[docType], version) else None
    }

    /** Resolution through the maps is the scan of the log. */
    function Resolve(ref: Ref): (r: Option<Registration>)
      requires Valid()
      reads this
      ensures r == Scan(log, ref)
    {
      if ref.schemaVersion != "" then
        if SchemaVersionKey(ref.schemaVersion) in registrations then
          assert Find(registrations, SchemaVersionKey(ref.schemaVersion)) == Last(log, ByVersion(ref.schemaVersion));
          Some(registrations[SchemaVersionKey(ref.schemaVersion)])
        else
          assert Find(registrations, SchemaVersionKey(ref.schemaVersion)) == Last(log, ByVersion(ref.schemaVersion));
          ResolveByDerivedSchemaVersion(ref.schemaVersion, ref.docType)
      else if ref.docType != "" then Find(registrations, TypeKey(ref.docType))
      else None
    }

    function DocumentTypeFromSchemaVersion(schemaVersion: string): (t: string)
      requires Valid()
      reads this
      ensures t == ScanType(log, schemaVersion)
    {
      assert schemaVersion != "" ==>
               Find(registrations, SchemaVersionKey(schemaVersion)) == Last(log, ByVersion(schemaVersion));
      EmptyVersion();
      var key := SchemaVersionKey(schemaVersion);
      if key in registrations then registrations[key].ref.docType
      else
        var derived := ResolveByDerivedSchemaVersion(schemaVersion, "");
        if derived.Some? then derived.value.ref.docType else ""
    }
  }

  lemma ParsedNonEmpty(schemaVersion: string)
    ensures var p := ParseSchemaVersion(schemaVersion); p.Some? ==> p.value.0 != "" && p.value.1 != ""
  {
  }

  lemma EmptyVersion()
    ensures ParseSchemaVersion("") == None
  {
  }

  /** The type of what a schema version resolves to. */
  function ScanType(log: seq<Registration>, schemaVersion: string): string {
    var r := Scan(log, Ref(schemaVersion, ""));
    if r.Some? then r.value.ref.docType else ""
  }

  /** The scan finds the last entry that matches, at index `i`, and nothing exactly when no entry does. */
  lemma {:induction false} LastIsLast(log: seq<Registration>, q: Query) returns (i: int)
    ensures -1 <= i < |log|
    ensures Last(log, q) == if i < 0 then None else Some(log[i])
    ensures i >= 0 ==> Matches(q, log[i])
    ensures forall j :: i < j < |log| ==> !Matches(q, log[j])
    decreases |log|
  {
    if log == [] {
      i := -1;
    } else if Matches(q, log[|log| - 1]) {
      i := |log| - 1;
    } else {
      var init := log[..|log| - 1];
      i := LastIsLast(init, q);
      assert forall j :: 0 <= j < |init| ==> init[j] == log[j];
    }
  }

  // ---------- whole runs of registrations ----------

  /** What a sequence of `Register` calls leaves in the log. */
  function Accepted(rs: seq<Registration>): seq<Registration> {
    if rs == [] then []
    else
      var last := rs[|rs| - 1];
      Accepted(rs[..|rs| - 1]) + (if Rejected(last).None? then [Normalized(last)] else [])
  }

  method RegisterAll(rs: seq<Registration>) returns (v: Validator)
    ensures fresh(v) && v.Valid() && v.log == Accepted(rs)
    ensures forall ref :: v.Resolve(ref) == Scan(Accepted(rs), ref)
  {
    v := new Validator();
    for k := 0 to |rs|
      invariant fresh(v) && v.Valid() && v.log == Accepted(rs[..k])
    {
      assert rs[..k + 1][..k] == rs[..k];
      var err := v.Register(rs[k]);
    }
    assert rs[..|rs|] == rs;
  }

  function FirstRejected(rs: seq<Registration>): Option<RegisterError> {
    if rs == [] then None else if Rejected(rs[0]).Some? then Rejected(rs[0]) else FirstRejected(rs[1..])
  }

  /** `New`: the built-in registrations are all accepted, or the first error is returned. */
  method New(rs: seq<Registration>) returns (v: Validator, err: Option<RegisterError>)
    ensures err == FirstRejected(rs)
    ensures fresh(v) && v.Valid() && (err.None? ==> v.log == Accepted(rs) && |v.log| == |rs|)
  {
    v := new Validator();
    assert rs[0..] == rs;
    for k := 0 to |rs|
      invariant fresh(v) && v.Valid() && v.log == Accepted(rs[..k]) && |v.log| == k
      invariant FirstRejected(rs[k..]) == FirstRejected(rs)
    {
      assert rs[..k + 1][..k] == rs[..k] && rs[k..][0] == rs[k] && rs[k..][1..] == rs[k + 1..];
      err := v.Register(rs[k]);
      if err.Some? {
        return;
      }
    }
    assert rs[..|rs|] == rs;
    err := None;
  }

  // ---------- detection ----------

  /** A decoded document, as far as detection looks at it. */
  datatype Document = NotAnObject | NoVersion | VersionNotString | VersionString(version: string)

  datatype Detected = Detected(ref: Ref) | DecodeError | DetectError

  method DetectRefFromDocument(v: Validator, document: Document) returns (d: Detected)
    requires v.Valid()
    ensures d == Detection(v.log, document)
  {
    match document {
      case NotAnObject => return DecodeError;
      case NoVersion => return DetectError;
      case VersionNotString => return DecodeError;
      case VersionString(version) =>
        if version == "" {
          return DetectError;
        }
        return Detected(Ref(version, v.DocumentTypeFromSchemaVersion(version)));
    }
  }

  function Detection(log: seq<Registration>, document: Document): Detected {
    match document
    case NotAnObject => DecodeError
    case NoVersion => DetectError
    case VersionNotString => DecodeError
    case VersionString(version) =>
      if version == "" then DetectError else Detected(Ref(version, ScanType(log, version)))
  }

  lemma VersionedHasType(log: seq<Registration>, docType: string, version: string)
    ensures var r := Last(log, ByAsset(docType, version)); r.Some? ==> r.value.ref.docType == docType
  {
    var i := LastIsLast(log, ByAsset(docType, version));
  }

  /** The detected reference, which carries a type, resolves like its schema version alone. */
  lemma DetectedResolvesAlike(log: seq<Registration>, document: Document)
    requires Detection(log, document).Detected?
    ensures var ref := Detection(log, document).ref;
            Scan(log, ref) == Scan(log, Ref(ref.schemaVersion, ""))
  {
    var version := document.version;
    if Last(log, ByVersion(version)).None? && ParseSchemaVersion(version).Some? {
      var (docType, assetVersion) := ParseSchemaVersion(version).value;
      VersionedHasType(log, docType, assetVersion);
    }
  }

  function MergeRef(base: Ref, fallback: Ref): Ref {
    Ref(if base.schemaVersion == "" then fallback.schemaVersion else base.schemaVersion,
        if base.docType == "" then fallback.docType else base.docType)
  }

  /** Whether a document's version is reported as different from the expected one. */
  predicate SchemaVersionMismatch(expected: string, document: Document) {
    expected != "" && (document.VersionNotString? || (document.VersionString? && document.version != expected))
  }

  /** A document whose schema was detected from its own version fails the version check exactly when no
      registration has that version and the one found by derivation declares a version of its own. */
  lemma DetectedMismatch(log: seq<Registration>, document: Document)
    requires Detection(log, document).Detected? && Scan(log, Detection(log, document).ref).Some?
    ensures var ref := Detection(log, document).ref;
            var declared := Scan(log, ref).value.ref;
            (SchemaVersionMismatch(MergeRef(declared, ref).schemaVersion, document)
             <==> Last(log, ByVersion(document.version)).None? && declared.schemaVersion != "")
  {
    var version := document.version;
    var i := LastIsLast(log, ByVersion(version));
    if Last(log, ByVersion(version)).None? {
      var (docType, assetVersion) := ParseSchemaVersion(version).value;
      var j := LastIsLast(log, ByAsset(docType, assetVersion));
    }
  }
}
