/** The opaque node ids of nodeid/codec.go and nodeid/repo.go: resource ids in two formats and
    git-object ids, with their decoders. */
module NodeId {
  import opened Strings
  import opened Decimal
  import opened Base64
  import opened Varint

  // Kinds are numbered in registry order; any other number is unregistered.
  type Kind = int

  datatype Format = New | Legacy

  datatype Entry = Entry(typeName: GoString, legacyLen: GoString, newPrefix: GoString)

  const KindCount := 23

  function Registry(kind: Kind): Option<Entry> {
    match kind
    case 0 => Some(Entry("User", "04", "U"))
    case 1 => Some(Entry("Organization", "012", "O"))
    case 2 => Some(Entry("Repository", "010", "R"))
    case 3 => Some(Entry("Issue", "05", "I"))
    case 4 => Some(Entry("PullRequest", "011", "PR"))
    case 5 => Some(Entry("IssueComment", "012", "IC"))
    case 6 => Some(Entry("PullRequestReview", "017", "PRR"))
    case 7 => Some(Entry("PullRequestReviewComment", "024", "PRRC"))
    case 8 => Some(Entry("PullRequestReviewThread", "023", "PRRT"))
    case 9 => Some(Entry("CheckRun", "08", "CR"))
    case 10 => Some(Entry("CheckSuite", "010", "CS"))
    case 11 => Some(Entry("StatusContext", "013", "SC"))
    case 12 => Some(Entry("Label", "05", "LA"))
    case 13 => Some(Entry("Milestone", "09", "MI"))
    case 14 => Some(Entry("Commit", "06", "C"))
    case 15 => Some(Entry("Reaction", "08", "REA"))
    case 16 => Some(Entry("Release", "07", "RE"))
    case 17 => Some(Entry("ReleaseAsset", "012", "RA"))
    case 18 => Some(Entry("Gist", "04", "G"))
    case 19 => Some(Entry("GistComment", "011", "GC"))
    case 20 => Some(Entry("Team", "04", "T"))
    case 21 => Some(Entry("App", "03", "A"))
    case 22 => Some(Entry("IssueEvent", "010", "IE"))
    case _ => None
  }

  predicate Registered(kind: Kind) { Registry(kind).Some? }

  function AllKinds(): set<Kind> { set k: Kind | 0 <= k < KindCount && Registered(k) }

  function TypeName(kind: Kind): GoString
    requires Registered(kind)
  {
    Registry(kind).value.typeName
  }

  function NewPrefix(kind: Kind): GoString
    requires Registered(kind)
  {
    Registry(kind).value.newPrefix
  }

  predicate IsLetter(c: char) { 'A' <= c <= 'Z' || 'a' <= c <= 'z' }

  predicate AllLetters(s: string) { forall i :: 0 <= i < |s| ==> IsLetter(s[i]) }

  // ---- The names tell kinds apart ----

  /** Length and first letter of a type name. */
  function TypeKey(name: string): (nat, char)
    requires name != ""
  {
    (|name|, name[0])
  }

  function KindOfTypeKey(key: (nat, char)): Kind {
    match key.0
    case 4 => if key.1 == 'U' then 0 else if key.1 == 'G' then 18 else 20
    case 12 => if key.1 == 'O' then 1 else if key.1 == 'I' then 5 else 17
    case 10 => if key.1 == 'R' then 2 else if key.1 == 'C' then 10 else 22
    case 5 => if key.1 == 'I' then 3 else 12
    case 11 => if key.1 == 'P' then 4 else 19
    case 17 => 6
    case 24 => 7
    case 23 => 8
    case 8 => if key.1 == 'C' then 9 else 15
    case 13 => 11
    case 9 => 13
    case 6 => 14
    case 7 => 16
    case _ => 21
  }

  lemma TypeNameKeyed(kind: Kind)
    requires Registered(kind)
    ensures TypeName(kind) != "" && KindOfTypeKey(TypeKey(TypeName(kind))) == kind
  {
  }

  lemma AccountNamesAreLetters(kind: Kind)
    requires 0 <= kind < 4
    ensures AllLetters(TypeName(kind))
  {
  }

  lemma PullNamesAreLetters(kind: Kind)
    requires 4 <= kind < 7
    ensures AllLetters(TypeName(kind))
  {
  }

  lemma CommentNamesAreLetters(kind: Kind)
    requires 7 <= kind < 9
    ensures AllLetters(TypeName(kind))
  {
  }

  lemma CheckNamesAreLetters(kind: Kind)
    requires 9 <= kind < 13
    ensures AllLetters(TypeName(kind))
  {
  }

  lemma GitNamesAreLetters(kind: Kind)
    requires 13 <= kind < 17
    ensures AllLetters(TypeName(kind))
  {
  }

  lemma ReleaseNamesAreLetters(kind: Kind)
    requires 17 <= kind < 20
    ensures AllLetters(TypeName(kind))
  {
  }

  lemma TeamNamesAreLetters(kind: Kind)
    requires 20 <= kind < 23
    ensures AllLetters(TypeName(kind))
  {
  }

  lemma TypeNameLetters(kind: Kind)
    requires Registered(kind)
    ensures AllLetters(TypeName(kind))
  {
    if kind < 4 {
      AccountNamesAreLetters(kind);
    } else if kind < 7 {
      PullNamesAreLetters(kind);
    } else if kind < 9 {
      CommentNamesAreLetters(kind);
    } else if kind < 13 {
      CheckNamesAreLetters(kind);
    } else if kind < 17 {
      GitNamesAreLetters(kind);
    } else if kind < 20 {
      ReleaseNamesAreLetters(kind);
    } else {
      TeamNamesAreLetters(kind);
    }
  }

  /** Length and the first, second and last letters of a prefix. */
  function PrefixKey(p: string): (nat, char, char, char)
    requires p != ""
  {
    (|p|, p[0], if |p| > 1 then p[1] else 'A', p[|p| - 1])
  }

  function KindOfPrefixKey(key: (nat, char, char, char)): Kind {
    match key.0
    case 1 =>
      if key.1 == 'U' then 0 else if key.1 == 'O' then 1 else if key.1 == 'R' then 2 else if key.1 == 'I' then 3
      else if key.1 == 'C' then 14 else if key.1 == 'G' then 18 else if key.1 == 'T' then 20 else 21
    case 2 =>
      if key.1 == 'P' then 4
      else if key.1 == 'I' then if key.2 == 'C' then 5 else 22
      else if key.1 == 'C' then if key.2 == 'R' then 9 else 10
      else if key.1 == 'S' then 11
      else if key.1 == 'L' then 12
      else if key.1 == 'M' then 13
      else if key.1 == 'R' then if key.2 == 'E' then 16 else 17
      else 19
    case 3 => if key.1 == 'P' then 6 else 15
    case _ => if key.3 == 'C' then 7 else 8
  }

  lemma LowPrefixLetters(kind: Kind)
    requires 0 <= kind < 9
    ensures NewPrefix(kind) != "" && AllLetters(NewPrefix(kind)) && |NewPrefix(kind)| <= 4
  {
  }

  lemma HighPrefixLetters(kind: Kind)
    requires 9 <= kind < KindCount
    ensures NewPrefix(kind) != "" && AllLetters(NewPrefix(kind)) && |NewPrefix(kind)| <= 4
  {
  }

  lemma LowPrefixKeyed(kind: Kind)
    requires 0 <= kind < 9
    ensures KindOfPrefixKey(PrefixKey(NewPrefix(kind))) == kind
  {
  }

  lemma HighPrefixKeyed(kind: Kind)
    requires 9 <= kind < KindCount
    ensures KindOfPrefixKey(PrefixKey(NewPrefix(kind))) == kind
  {
  }

  lemma PrefixShape(kind: Kind)
    requires Registered(kind)
    ensures NewPrefix(kind) != "" && AllLetters(NewPrefix(kind)) && |NewPrefix(kind)| <= 4
    ensures KindOfPrefixKey(PrefixKey(NewPrefix(kind))) == kind
  {
    if kind < 9 {
      LowPrefixLetters(kind);
      LowPrefixKeyed(kind);
    } else {
      HighPrefixLetters(kind);
      HighPrefixKeyed(kind);
    }
  }

  /** Different kinds have different type names and different prefixes. */
  lemma NamesTellKinds(j: Kind, k: Kind)
    requires Registered(j) && Registered(k) && j != k
    ensures TypeName(j) != TypeName(k) && NewPrefix(j) != NewPrefix(k)
  {
    PrefixShape(j);
    PrefixShape(k);
    TypeNameKeyed(j);
    TypeNameKeyed(k);
  }

  lemma LegacyLenShape(kind: Kind)
    requires Registered(kind)
    ensures ':' !in Registry(kind).value.legacyLen
  {
  }

  // ---- Encoding and decoding ----

  const VersionByte: Octet := Byte(0)
  const GitObjectVersion: Octet := Byte(1)

  /** The legacy body "<length>:<TypeName><id>". */
  function LegacyBody(e: Entry, dbID: Int64): GoString { e.legacyLen + [':'] + (e.typeName + FormatInt(dbID)) }

  /** Encode: "" for an unregistered kind. */
  function Encode(kind: Kind, dbID: Int64, format: Format): GoString {
    match Registry(kind)
    case None => []
    case Some(e) =>
      match format
      case Legacy => Base64.Encode(LegacyBody(e, dbID), Std)
      case New => e.newPrefix + ['_'] + Base64.Encode([VersionByte] + PutVarint(dbID), RawUrl)
  }

  /** decodeNew: the payload after a known prefix. */
  function DecodeNew(kind: Kind, rest: string): Result<(Kind, Int64)> {
    match Base64.Decode(rest, RawUrl)
    case None => Err
    case Some(raw) =>
      if |raw| < 2 || raw[0] != VersionByte then Err
      else match ReadVarint(raw[1..])
        case None => Err
        case Some((id, _)) => Ok((kind, id))
  }

  /** The body is a registered type name followed by nothing but a number. */
  predicate Names(body: string, kind: Kind, id: Int64) {
    Registered(kind) && TypeName(kind) <= body && ParseInt(body[|TypeName(kind)|..]) == Some(id)
  }

  /** No body names two kinds: past the shorter name the longer one goes on with a letter. */
  lemma NamesUnique(body: string, k1: Kind, i1: Int64, k2: Kind, i2: Int64)
    requires Names(body, k1, i1) && Names(body, k2, i2)
    ensures k1 == k2 && i1 == i2
  {
    var n1, n2 := TypeName(k1), TypeName(k2);
    if |n1| > |n2| {
      LongerNameIsNoNumber(body, k2, k1);
    } else if |n1| < |n2| {
      LongerNameIsNoNumber(body, k1, k2);
    } else {
      TypeNameKeyed(k1);
      TypeNameKeyed(k2);
      assert n1 == body[..|n1|] == n2;
    }
  }

  lemma LongerNameIsNoNumber(body: string, short: Kind, long: Kind)
    requires Registered(short) && Registered(long)
    requires |TypeName(short)| < |TypeName(long)| && TypeName(short) <= body && TypeName(long) <= body
    ensures ParseInt(body[|TypeName(short)|..]) == None
  {
    var n := |TypeName(short)|;
    TypeNameLetters(long);
    assert body[n..][0] == TypeName(long)[n];
    assert IsLetter(TypeName(long)[n]);
    ParseNeedsNumber(body[n..]);
  }

  /** One turn of decodeLegacy's loop: the number after the type name, if that is all there is. */
  function TryName(body: string, typeName: string): Option<Int64> {
    if !(typeName <= body) then None
    else
      var digits := body[|typeName|..];
      if digits == "" then None else ParseInt(digits)
  }

  lemma TryNameNames(body: string, kind: Kind, id: Int64)
    requires Registered(kind)
    ensures TryName(body, TypeName(kind)) == Some(id) <==> Names(body, kind, id)
  {
  }

  /** What a legacy body decodes to: the one kind and number it names, if any. */
  ghost function Named(body: string): Result<(Kind, Int64)> {
    if exists kind, id :: Names(body, kind, id) then
      var kind, id :| Names(body, kind, id);
      Ok((kind, id))
    else Err
  }

  lemma NamedIs(body: string, kind: Kind, id: Int64)
    requires Names(body, kind, id)
    ensures Named(body) == Ok((kind, id))
  {
    forall k, i | Names(body, k, i) ensures k == kind && i == id { NamesUnique(body, k, i, kind, id); }
  }

  /** A type name followed by a number settles the scan. */
  lemma FoundName(body: string, kind: Kind, id: Int64)
    requires Registered(kind) && TryName(body, TypeName(kind)) == Some(id)
    ensures Named(body) == Ok((kind, id))
  {
    TryNameNames(body, kind, id);
    NamedIs(body, kind, id);
  }

  /** When no type name is followed by a number, nothing is named. */
  lemma NoName(body: string)
    requires forall kind :: Registered(kind) ==> TryName(body, TypeName(kind)) == None
    ensures Named(body) == Err
  {
    forall kind, id ensures !Names(body, kind, id) {
      if Registered(kind) {
        TryNameNames(body, kind, id);
      }
    }
  }

  ghost function DecodeLegacy(nodeID: string): Result<(Kind, Int64)> {
    match Base64.Decode(nodeID, Std)
    case None => Err
    case Some(raw) =>
      match Cut(raw, ':')
      case None => Err
      case Some((_, body)) => Named(body)
  }

  /** The kind whose new prefix this is: the byNewPrefix lookup. */
  ghost function KindOfPrefix(prefix: string): Option<Kind> {
    if exists kind :: Registered(kind) && NewPrefix(kind) == prefix then
      var kind :| Registered(kind) && NewPrefix(kind) == prefix;
      Some(kind)
    else None
  }

  lemma KindOfPrefixIs(kind: Kind)
    requires Registered(kind)
    ensures KindOfPrefix(NewPrefix(kind)) == Some(kind)
  {
    forall k | Registered(k) && NewPrefix(k) == NewPrefix(kind) ensures k == kind {
      PrefixShape(k);
      PrefixShape(kind);
    }
  }

  ghost function Decode(nodeID: string): Result<(Kind, Int64)> {
    if nodeID == "" then Err
    else match Cut(nodeID, '_')
      case Some((prefix, rest)) =>
        (match KindOfPrefix(prefix)
         case Some(kind) => DecodeNew(kind, rest)
         case None => DecodeLegacy(nodeID))
      case None => DecodeLegacy(nodeID)
  }

  // ---- Decode inverts Encode ----

  lemma NewPayload(kind: Kind, dbID: Int64)
    ensures DecodeNew(kind, Base64.Encode([VersionByte] + PutVarint(dbID), RawUrl)) == Ok((kind, dbID))
  {
    var raw := [VersionByte] + PutVarint(dbID);
    Base64.RoundTrip(raw, RawUrl);
    VarintRoundTrip(dbID, []);
    assert raw[1..] == PutVarint(dbID) + [];
  }

  lemma LegacyPayload(kind: Kind, dbID: Int64)
    requires Registered(kind)
    ensures DecodeLegacy(Encode(kind, dbID, Legacy)) == Ok((kind, dbID))
  {
    var e := Registry(kind).value;
    var body := e.typeName + FormatInt(dbID);
    Base64.RoundTrip(LegacyBody(e, dbID), Std);
    LegacyLenShape(kind);
    CutAt(e.legacyLen, ':', body);
    ParseFormat(dbID);
    assert body[|e.typeName|..] == FormatInt(dbID);
    NamedIs(body, kind, dbID);
  }

  /** Standard base64 never holds the separator of the new format. */
  lemma StdHasNoSeparator(data: GoString)
    ensures '_' !in Base64.Encode(data, Std)
  {
    EncodeInAlphabet(data, Std);
  }

  /** The contract of the package: every registered kind, every 64-bit id, both formats. */
  lemma DecodeEncode(kind: Kind, dbID: Int64, format: Format)
    requires Registered(kind)
    ensures Decode(Encode(kind, dbID, format)) == Ok((kind, dbID))
  {
    var e := Registry(kind).value;
    match format {
      case New =>
        var payload := Base64.Encode([VersionByte] + PutVarint(dbID), RawUrl);
        PrefixShape(kind);
        CutAt(e.newPrefix, '_', payload);
        KindOfPrefixIs(kind);
        NewPayload(kind, dbID);
      case Legacy =>
        var id := Encode(kind, dbID, Legacy);
        StdHasNoSeparator(LegacyBody(e, dbID));
        assert id != "" by { assert |LegacyBody(e, dbID)| > 0; }
        LegacyPayload(kind, dbID);
    }
  }

  /** No two resources share an id, in whichever formats they are written. */
  lemma EncodeInjective(k1: Kind, i1: Int64, f1: Format, k2: Kind, i2: Int64, f2: Format)
    requires Registered(k1) && Registered(k2) && Encode(k1, i1, f1) == Encode(k2, i2, f2)
    ensures k1 == k2 && i1 == i2
  {
    DecodeEncode(k1, i1, f1);
    DecodeEncode(k2, i2, f2);
  }

  /** The two formats never produce the same text. */
  lemma FormatsDisjoint(k1: Kind, i1: Int64, k2: Kind, i2: Int64)
    requires Registered(k1) && Registered(k2)
    ensures Encode(k1, i1, New) != Encode(k2, i2, Legacy)
  {
    StdHasNoSeparator(LegacyBody(Registry(k2).value, i2));
    var id := Encode(k1, i1, New);
    assert id[|NewPrefix(k1)|] == '_';
  }

  // ---- Git-object ids ----

  function GitPrefix(tag: string): Option<GoString> {
    if tag == "commit" then Some("C")
    else if tag == "blob" then Some("B")
    else if tag == "tree" then Some("T")
    else if tag == "tag" then Some("GT")
    else if tag == "ref" then Some("REF")
    else None
  }

  /** The inverse table. */
  function TagOfPrefix(prefix: string): Option<string> {
    if prefix == "C" then Some("commit")
    else if prefix == "B" then Some("blob")
    else if prefix == "T" then Some("tree")
    else if prefix == "GT" then Some("tag")
    else if prefix == "REF" then Some("ref")
    else None
  }

  function EncodeGitObject(tag: string, repo: Int64, oid: GoString): GoString {
    match GitPrefix(tag)
    case None => []
    case Some(prefix) =>
      prefix + ['_'] + Base64.Encode([GitObjectVersion] + PutVarint(repo) + oid, RawUrl)
  }

  /** The payload of a git-object id, read back. */
  function GitPayload(tag: string, rest: string): Result<(string, Int64, GoString)> {
    match Base64.Decode(rest, RawUrl)
    case None => Err
    case Some(raw) => GitFields(tag, raw)
  }

  function GitFields(tag: string, raw: GoString): Result<(string, Int64, GoString)> {
    if |raw| < 2 || raw[0] != GitObjectVersion then Err
    else match ReadVarint(raw[1..])
      case None => Err
      case Some((id, n)) => Ok((tag, id, raw[1 + n..]))
  }

  function DecodeGitObject(nodeID: string): Result<(string, Int64, GoString)> {
    match Cut(nodeID, '_')
    case None => Err
    case Some((prefix, rest)) =>
      match TagOfPrefix(prefix)
      case None => Err
      case Some(tag) => GitPayload(tag, rest)
  }

  lemma GitFieldsRoundTrip(tag: string, repo: Int64, oid: GoString)
    ensures GitFields(tag, [GitObjectVersion] + PutVarint(repo) + oid) == Ok((tag, repo, oid))
  {
    var number := PutVarint(repo);
    var raw := [GitObjectVersion] + number + oid;
    VarintRoundTrip(repo, oid);
    assert raw[1..] == number + oid;
    assert raw[1 + |number|..] == oid;
  }

  lemma GitPayloadRoundTrip(tag: string, repo: Int64, oid: GoString)
    ensures GitPayload(tag, Base64.Encode([GitObjectVersion] + PutVarint(repo) + oid, RawUrl)) == Ok((tag, repo, oid))
  {
    Base64.RoundTrip([GitObjectVersion] + PutVarint(repo) + oid, RawUrl);
    GitFieldsRoundTrip(tag, repo, oid);
  }

  lemma GitPrefixShape(tag: string)
    requires GitPrefix(tag).Some?
    ensures '_' !in GitPrefix(tag).value && TagOfPrefix(GitPrefix(tag).value) == Some(tag)
  {
  }

  /** Every tag, repository id and object string comes back. */
  lemma DecodeEncodeGitObject(tag: string, repo: Int64, oid: GoString)
    requires GitPrefix(tag).Some?
    ensures DecodeGitObject(EncodeGitObject(tag, repo, oid)) == Ok((tag, repo, oid))
  {
    GitPrefixShape(tag);
    CutAt(GitPrefix(tag).value, '_', Base64.Encode([GitObjectVersion] + PutVarint(repo) + oid, RawUrl));
    GitPayloadRoundTrip(tag, repo, oid);
  }

  /** No text at all is both a resource id and a git-object id, though prefixes are shared. */
  lemma NeverBoth(nodeID: string)
    ensures Decode(nodeID).Err? || DecodeGitObject(nodeID).Err?
  {
    match Cut(nodeID, '_') {
      case None =>
      case Some((prefix, rest)) =>
        if KindOfPrefix(prefix).None? {
          var i := |prefix|;
          assert nodeID[i] == '_';
          ForeignCharacter(nodeID, i, Std);
        }
    }
  }

  /** Decode rejects every git-object id. */
  lemma DecodeRejectsGitObjects(tag: string, repo: Int64, oid: GoString)
    ensures Decode(EncodeGitObject(tag, repo, oid)) == Err
  {
    if GitPrefix(tag).Some? {
      DecodeEncodeGitObject(tag, repo, oid);
      NeverBoth(EncodeGitObject(tag, repo, oid));
    }
  }

  /** DecodeGitObject rejects every resource id of either format. */
  lemma DecodeGitObjectRejectsResources(kind: Kind, dbID: Int64, format: Format)
    ensures DecodeGitObject(Encode(kind, dbID, format)) == Err
  {
    if Registered(kind) {
      DecodeEncode(kind, dbID, format);
      NeverBoth(Encode(kind, dbID, format));
    }
  }

  // ---- The legacy length column, and known ids ----

  lemma AccountLengths(kind: Kind)
    requires 0 <= kind < 8
    ensures Registry(kind).value.legacyLen == "0" + FormatNat(|TypeName(kind)|)
  {
  }

  lemma CheckLengths(kind: Kind)
    requires 8 <= kind < 16
    ensures Registry(kind).value.legacyLen == "0" + FormatNat(|TypeName(kind)|)
  {
  }

  lemma ReleaseLengths(kind: Kind)
    requires 16 <= kind < KindCount
    ensures Registry(kind).value.legacyLen == "0" + FormatNat(|TypeName(kind)|)
  {
  }

  /** The length column is a zero and the length of the type name. */
  lemma LegacyLenIsLength(kind: Kind)
    requires Registered(kind)
    ensures Registry(kind).value.legacyLen == "0" + FormatNat(|TypeName(kind)|)
  {
    if kind < 8 {
      AccountLengths(kind);
    } else if kind < 16 {
      CheckLengths(kind);
    } else {
      ReleaseLengths(kind);
    }
  }
}
