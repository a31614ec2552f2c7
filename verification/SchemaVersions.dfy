/** What the schema versions, locations and references of the registry mean, character by character. */
module SchemaVersions {
  import opened Options
  import opened SchemaRegistry
  import opened Strings

  predicate Blank(s: string) {
    forall c :: c in s ==> IsSpace(c)
  }

  predicate LowerCase(w: string) {
    forall c :: c in w ==> !('A' <= c <= 'Z')
  }

  /** `u` is `w` but for capitals. */
  predicate CaseVariant(u: string, w: string) {
    |u| == |w| && forall i :: 0 <= i < |u| ==> u[i] == w[i] || CapitalOf(u[i], w[i])
  }

  predicate CapitalOf(c: char, d: char) {
    'A' <= c <= 'Z' && c as int + 32 == d as int
  }

  /** `t` is the singular of the lower-case word `w`. */
  ghost predicate SingularOf(w: string, t: string) {
    || (exists stem: string :: stem != "" && w == stem + "ies" && t == stem + "y")
    || (w == t + "s" && !HasSuffix(w, "ss") && !(HasSuffix(w, "ies") && |w| > 3))
    || (w == t && (!HasSuffix(w, "s") || HasSuffix(w, "ss")))
  }

  // ---------- the document type ----------

  lemma {:induction false} LowerOf(u: string, w: string)
    requires LowerCase(w) && CaseVariant(u, w)
    ensures ToLower(u) == w
  {
    if u == "" {
      assert w == "";
    } else {
      assert w[0] in w;
      forall i | 0 <= i < |u| - 1
        ensures u[1..][i] == w[1..][i] || CapitalOf(u[1..][i], w[1..][i])
      {
        assert u[1..][i] == u[i + 1] && w[1..][i] == w[i + 1];
      }
      forall c | c in w[1..]
        ensures !('A' <= c <= 'Z')
      {
        assert c in w;
      }
      LowerOf(u[1..], w[1..]);
      assert ToLowerChar(u[0]) == w[0];
      assert w == [w[0]] + w[1..];
    }
  }

  lemma {:induction false} IesStem(w: string, stem: string, ies: string)
    requires w == stem + ies
    ensures HasSuffix(w, ies) && w[..|w| - |ies|] == stem
  {
  }

  lemma {:induction false} IesEnds(w: string)
    requires HasSuffix(w, "ies")
    ensures HasSuffix(w, "s") && !HasSuffix(w, "ss")
  {
    var n := |w|;
    assert w[n - 3..][1] == 'e' && w[n - 3..][2] == 's';
    assert w[n - 1..] == "s" && w[n - 2..][0] == 'e';
  }

  /** The document type is the singular of the subject, whatever its capitals. */
  lemma {:induction false} TypeOfSubject(u: string, w: string, t: string)
    requires u != "" && LowerCase(w) && CaseVariant(u, w) && (forall c :: c in w ==> !IsSpace(c)) && SingularOf(w, t)
    ensures SingularDocumentType(u) == t
  {
    LowerOf(u, w);
    assert w[0] in w && w[|w| - 1] in w;
    TrimSpaceIs("", w, "");
    assert "" + w + "" == w;
    TypeOfWord(w, t);
  }

  lemma {:induction false} TypeOfWord(w: string, t: string)
    requires w != "" && SingularOf(w, t)
    ensures t == if HasSuffix(w, "ies") && |w| > 3 then w[..|w| - 3] + "y"
                 else if HasSuffix(w, "s") && !HasSuffix(w, "ss") then w[..|w| - 1] else w
  {
    if HasSuffix(w, "ies") {
      IesEnds(w);
    }
    if stem: string :| stem != "" && w == stem + "ies" && t == stem + "y" {
      IesStem(w, stem, "ies");
    } else if w == t + "s" && !HasSuffix(w, "ss") && !(HasSuffix(w, "ies") && |w| > 3) {
      IesStem(w, t, "s");
    }
  }

  // ---------- the parts of a schema version ----------

  predicate DomainText(domain: string) {
    '/' !in domain && (domain == "" || domain[0] == '.')
  }

  lemma {:induction false} CutAtDot(u: string, domain: string)
    requires '.' !in u && DomainText(domain)
    ensures var dot := IndexOf(u + domain, "."); (if dot >= 0 then (u + domain)[..dot] else u + domain) == u
  {
    if domain == "" {
      assert u + domain == u;
      MissingChar(u, ".", '.');
    } else {
      assert domain == ['.'] + domain[1..];
      IndexOfChar(u, '.', domain[1..]);
      assert u + domain == u + ['.'] + domain[1..];
    }
  }

  lemma {:induction false} CutAtSlash(subject: string, version: string)
    requires '/' !in subject
    ensures var text := subject + "/" + version;
            && IndexOf(text, "/") == |subject| && text[..|subject|] == subject && text[|subject| + 1..] == version
  {
    IndexOfChar(subject, '/', version);
    assert subject + "/" + version == subject + ['/'] + version;
  }

  /** `<subject>[.<domain>]/<asset version>` with white space around it: the subject without the domain, in the
      singular and in lower case, and the whole rest behind the first slash. */
  lemma {:induction false} VersionParts(v: string, left: string, u: string, domain: string, version: string,
                                        right: string)
    requires Blank(left) && Blank(right) && v == left + (u + domain + "/" + version) + right
    requires u != "" && (forall c :: c in u ==> !IsSpace(c) && c != '/' && c != '.') && DomainText(domain)
    requires version != "" && !IsSpace(version[|version| - 1])
    ensures ParseSchemaVersion(v)
         == if SingularDocumentType(u) == "" then None else Some((SingularDocumentType(u), version))
  {
    var text := u + domain + "/" + version;
    assert u[0] in u && text[0] == u[0] && text[|text| - 1] == version[|version| - 1];
    TrimSpaceIs(left, text, right);
    CutAtSlash(u + domain, version);
    CutAtDot(u, domain);
  }

  /** Resolution by derivation: when no registration has this very version, the last one of the type and asset
      version it spells out, unless another type is asked for. */
  lemma {:induction false} DerivedResolution(log: seq<Registration>, v: string, explicitType: string, left: string,
                                             u: string, domain: string, version: string, right: string,
                                             w: string, t: string)
    requires Last(log, ByVersion(v)).None?
    requires Blank(left) && Blank(right) && v == left + (u + domain + "/" + version) + right
    requires u != "" && (forall c :: c in u ==> !IsSpace(c) && c != '/' && c != '.') && DomainText(domain)
    requires version != "" && !IsSpace(version[|version| - 1])
    requires LowerCase(w) && CaseVariant(u, w) && SingularOf(w, t) && t != ""
    ensures Scan(log, Ref(v, explicitType))
         == if explicitType == "" || explicitType == t then Last(log, ByAsset(t, version)) else None
  {
    NoBlanks(u, w);
    TypeOfSubject(u, w, t);
    VersionParts(v, left, u, domain, version, right);
    assert v != "";
  }

  lemma {:induction false} NoBlanks(u: string, w: string)
    requires CaseVariant(u, w) && forall c :: c in u ==> !IsSpace(c)
    ensures forall c :: c in w ==> !IsSpace(c)
  {
    forall c | c in w ensures !IsSpace(c) {
      var i :| 0 <= i < |w| && w[i] == c;
      assert u[i] in u && (u[i] == w[i] || CapitalOf(u[i], w[i]));
    }
  }

  /** The plain cases: `designs` is of type `design`, `policies` of type `policy`, `class` of type `class`. */
  lemma {:induction false} PluralsOf(t: string, stem: string)
    ensures t != "" && !HasSuffix(t, "s") && !HasSuffix(t, "ie") ==> SingularOf(t + "s", t) && SingularOf(t, t)
    ensures stem != "" ==> SingularOf(stem + "ies", stem + "y")
    ensures SingularOf(t + "ss", t + "ss")
  {
    if t != "" && !HasSuffix(t, "s") && !HasSuffix(t, "ie") {
      PluralEnds(t + "s", t);
    }
    IesStem(t + "ss", t, "ss");
  }

  lemma {:induction false} PluralEnds(w: string, t: string)
    requires w == t + "s" && t != "" && !HasSuffix(t, "s") && !HasSuffix(t, "ie")
    ensures !HasSuffix(w, "ss") && !HasSuffix(w, "ies")
  {
    var n := |t|;
    assert t[n - 1..] == [t[n - 1]];
    assert w[n - 1..] == [t[n - 1], 's'];
    if n > 1 {
      assert t[n - 2..] == [t[n - 2], t[n - 1]];
      assert w[n - 2..] == [t[n - 2], t[n - 1], 's'];
    }
  }

  /** Where nothing is derived: without a slash, with nothing before the first one or behind it, or with a subject
      that is empty or a mere plural ending. */
  lemma {:induction false} NothingDerived(log: seq<Registration>, v: string, explicitType: string, text: string, k: nat)
    requires v != "" && Last(log, ByVersion(v)).None? && text == TrimSpace(v)
    requires k <= |text| && '/' !in text[..k] && (k < |text| ==> text[k] == '/')
    requires k == 0 || k >= |text| - 1 || text[0] == '.' || text[..k] == "s" || text[..k] == "S"
    ensures Scan(log, Ref(v, explicitType)) == None
  {
    if k == |text| {
      assert text[..k] == text;
      MissingChar(text, "/", '/');
    } else {
      var subject, version := text[..k], text[k + 1..];
      assert text == subject + "/" + version;
      CutAtSlash(subject, version);
      if k > 0 && version != "" {
        EmptySubject(subject);
      }
    }
  }

  lemma {:induction false} EmptySubject(subject: string)
    requires subject != "" && '/' !in subject && (subject[0] == '.' || subject == "s" || subject == "S")
    ensures var dot := IndexOf(subject, ".");
            SingularDocumentType(if dot >= 0 then subject[..dot] else subject) == ""
  {
    if subject[0] == '.' {
      CutAtDot("", subject);
      assert "" + subject == subject;
    } else {
      MissingChar(subject, ".", '.');
      var w, t := "s", "";
      assert w == t + "s" && !IsSpace(w[0]);
      TypeOfSubject(subject, w, t);
    }
  }

  // ---------- the order of resolution ----------

  /** A registration of the very version wins, the last one of them. */
  lemma ExactResolution(log: seq<Registration>, ref: Ref, i: nat)
    requires ref.schemaVersion != "" && i < |log| && log[i].ref.schemaVersion == ref.schemaVersion
    requires forall j :: i < j < |log| ==> log[j].ref.schemaVersion != ref.schemaVersion
    ensures Scan(log, ref) == Some(log[i])
  {
    var k := LastIsLast(log, ByVersion(ref.schemaVersion));
    assert Matches(ByVersion(ref.schemaVersion), log[i]);
  }

  /** Without a version the last registration of the type is found, and nothing without a type. */
  lemma TypeResolution(log: seq<Registration>, docType: string, i: int)
    requires -1 <= i < |log| && (i >= 0 ==> log[i].ref.docType == docType)
    requires forall j :: i < j < |log| ==> log[j].ref.docType != docType
    ensures Scan(log, Ref("", docType)) == if docType == "" || i < 0 then None else Some(log[i])
  {
    var k := LastIsLast(log, ByType(docType));
    assert i >= 0 ==> Matches(ByType(docType), log[i]);
  }

  /** The type a document is detected to have is that of the registration its version resolves to. */
  lemma DetectedType(log: seq<Registration>, version: string)
    requires version != ""
    ensures var r := Scan(log, Ref(version, ""));
            Detection(log, VersionString(version))
            == Detected(Ref(version, if r.Some? then r.value.ref.docType else ""))
    ensures Detection(log, VersionString("")).DetectError? && Detection(log, NoVersion).DetectError?
    ensures Detection(log, NotAnObject).DecodeError? && Detection(log, VersionNotString).DecodeError?
  {
  }

  // ---------- registrations and locations ----------

  /** What becomes of a registration: its location is trimmed, and an asset version it does not name is read
      from the location; one without a reference or a location is rejected. */
  lemma RegistrationRules(r: Registration, before: string, core: string, after: string)
    requires r.location == before + core + after && Blank(before) && Blank(after)
    requires core != "" ==> !IsSpace(core[0]) && !IsSpace(core[|core| - 1])
    ensures Rejected(r) == if r.ref.schemaVersion == "" && r.ref.docType == "" then Some(EmptyRef)
                           else if core == "" then Some(EmptyLocation) else None
    ensures Normalized(r)
         == Registration(r.ref, core, if r.assetVersion == "" then AssetVersion(core) else r.assetVersion)
  {
    TrimSpaceIs(before, core, after);
  }

  predicate Segments(segments: seq<string>) {
    forall s :: s in segments ==> '/' !in s && '#' !in s
  }

  lemma {:induction false} JoinChars(segments: seq<string>)
    requires Segments(segments)
    ensures '#' !in Join(segments, "/")
  {
    if |segments| > 1 {
      JoinChars(segments[1..]);
      assert segments[0] in segments;
    } else if |segments| == 1 {
      assert segments[0] in segments;
    }
  }

  lemma {:induction false} PathOf(path: string, fragment: string)
    requires '#' !in path && (fragment == "" || fragment[0] == '#')
    ensures AssetPath(path + fragment) == path
  {
    if fragment == "" {
      assert path + fragment == path;
      MissingChar(path, "#", '#');
    } else {
      assert path + fragment == path + ['#'] + fragment[1..];
      IndexOfChar(path, '#', fragment[1..]);
    }
  }

  lemma {:induction false} SegmentBehind(before: seq<string>, name: string, next: string, rest: seq<string>)
    requires name !in before
    ensures SegmentAfter(before + [name, next] + rest, name) == next
    decreases |before|
  {
    var segments := before + [name, next] + rest;
    if before == [] {
      assert segments[0] == name && segments[1] == next;
    } else {
      assert segments[0] == before[0] && segments[1..] == before[1..] + [name, next] + rest;
      SegmentBehind(before[1..], name, next, rest);
    }
  }

  lemma {:induction false} NoSegmentBehind(segments: seq<string>, name: string)
    requires segments != [] && name !in segments[..|segments| - 1]
    ensures SegmentAfter(segments, name) == ""
    decreases |segments|
  {
    if |segments| > 1 {
      assert segments[..|segments| - 1][0] == segments[0];
      assert segments[1..][..|segments| - 2] == segments[..|segments| - 1][1..];
      NoSegmentBehind(segments[1..], name);
    }
  }

  /** The asset version of a location is the segment behind the first `constructs`, whatever the fragment. */
  lemma {:induction false} AssetVersionIs(before: seq<string>, version: string, rest: seq<string>, fragment: string)
    requires Segments(before + ["constructs", version] + rest) && "constructs" !in before
    requires fragment == "" || fragment[0] == '#'
    ensures AssetVersion(Join(before + ["constructs", version] + rest, "/") + fragment) == version
  {
    var segments := before + ["constructs", version] + rest;
    JoinChars(segments);
    PathOf(Join(segments, "/"), fragment);
    SplitJoin(segments, '/');
    SegmentBehind(before, "constructs", version, rest);
  }

  /** There is none without such a segment that has another behind it. */
  lemma {:induction false} NoAssetVersion(segments: seq<string>, fragment: string)
    requires segments != [] && Segments(segments) && "constructs" !in segments[..|segments| - 1]
    requires fragment == "" || fragment[0] == '#'
    ensures AssetVersion(Join(segments, "/") + fragment) == ""
  {
    JoinChars(segments);
    PathOf(Join(segments, "/"), fragment);
    SplitJoin(segments, '/');
    NoSegmentBehind(segments, "constructs");
  }

  /** What several registrations leave: those with a reference and a location, in order. */
  lemma {:induction false} AcceptedNext(rs: seq<Registration>, r: Registration)
    ensures Accepted([]) == []
    ensures Accepted(rs + [r])
         == Accepted(rs) + if (r.ref.schemaVersion == "" && r.ref.docType == "") || Blank(r.location) then []
                           else [Normalized(r)]
  {
    assert (rs + [r])[..|rs|] == rs;
    BlankIff(r.location);
  }

  lemma {:induction false} BlankIff(s: string)
    ensures TrimSpace(s) == "" <==> Blank(s)
  {
    var lo, hi := TrimSpaceSlice(s);
    if Blank(s) {
      TrimSpaceIs(s, "", "");
      assert s + "" + "" == s;
    }
  }

  /** The error of the first registration that is rejected, if there is one. */
  lemma {:induction false} FirstRejectedIs(rs: seq<Registration>, k: nat)
    requires k <= |rs| && forall i :: 0 <= i < k ==> Rejected(rs[i]).None?
    ensures k < |rs| && Rejected(rs[k]).Some? ==> FirstRejected(rs) == Rejected(rs[k])
    ensures k == |rs| ==> FirstRejected(rs) == None
    decreases k
  {
    if k > 0 {
      forall i | 0 <= i < k - 1
        ensures Rejected(rs[1..][i]).None?
      {
        assert rs[1..][i] == rs[i + 1];
      }
      FirstRejectedIs(rs[1..], k - 1);
    }
  }

  // ---------- the version check ----------

  /** The reference a document is checked for: the registration's own parts, and from the request what it leaves
      open. */
  lemma MergedParts(base: Ref, fallback: Ref, other: Ref)
    ensures base.schemaVersion != "" ==> MergeRef(base, fallback).schemaVersion == base.schemaVersion
    ensures base.docType != "" ==> MergeRef(base, fallback).docType == base.docType
    ensures MergeRef(Ref("", base.docType), fallback).schemaVersion == fallback.schemaVersion
    ensures MergeRef(Ref(base.schemaVersion, ""), fallback).docType == fallback.docType
    ensures MergeRef(MergeRef(base, fallback), other) == MergeRef(base, MergeRef(fallback, other))
  {
  }

  /** A document fails the check for a requested reference exactly when the registration found declares a version,
      or else the request has one, and the document's version is another or no text. */
  lemma RequestedMismatch(log: seq<Registration>, ref: Ref, document: Document)
    requires Scan(log, ref).Some?
    ensures var declared := Scan(log, ref).value.ref;
            SchemaVersionMismatch(MergeRef(declared, ref).schemaVersion, document)
            <==> (document.VersionNotString? && (declared.schemaVersion != "" || ref.schemaVersion != ""))
                 || (document.VersionString? && declared.schemaVersion != ""
                     && document.version != declared.schemaVersion)
                 || (document.VersionString? && declared.schemaVersion == "" && ref.schemaVersion != ""
                     && document.version != ref.schemaVersion)
  {
    var declared := Scan(log, ref).value.ref;
    MergedParts(declared, ref, ref);
    assert declared.schemaVersion == "" ==> declared == Ref("", declared.docType);
  }
}
