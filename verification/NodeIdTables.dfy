/** The imperative side of nodeid/codec.go: the reverse tables init fills, the byte buffer Encode
    fills, and the map scan of decodeLegacy, in whatever order the map is visited. */
module NodeIdTables {
  import opened Strings
  import opened Decimal
  import opened Base64
  import opened Varint
  import N = NodeId

  /** The package's reverse lookups. */
  class Tables {
    var byNewPrefix: map<GoString, N.Kind>
    var byTypeName: map<GoString, N.Kind>

    /** Both maps hold exactly the registered kinds in `kinds`, under their own names. */
    ghost predicate Holds(kinds: set<N.Kind>)
      reads this
    {
      && (forall k :: k in kinds ==> N.Registered(k))
      && (forall k :: k in kinds ==> N.NewPrefix(k) in byNewPrefix && byNewPrefix[N.NewPrefix(k)] == k)
      && (forall k :: k in kinds ==> N.TypeName(k) in byTypeName && byTypeName[N.TypeName(k)] == k)
      && (forall p :: p in byNewPrefix ==> byNewPrefix[p] in kinds && N.NewPrefix(byNewPrefix[p]) == p)
      && (forall t :: t in byTypeName ==> byTypeName[t] in kinds && N.TypeName(byTypeName[t]) == t)
    }

    ghost predicate Valid()
      reads this
    {
      Holds(N.AllKinds())
    }

    /** init: one pass over the registry, in any order. */
    constructor ()
      ensures Valid()
    {
      byNewPrefix, byTypeName := map[], map[];
      new;
      var all := N.AllKinds();
      var unvisited := all;
      while unvisited != {}
        invariant unvisited <= all && Holds(all - unvisited)
        decreases |unvisited|
      {
        var k :| k in unvisited;
        ghost var done := all - unvisited;
        Add(k, done);
        unvisited := unvisited - {k};
        assert all - unvisited == done + {k};
      }
      assert all - unvisited == all;
    }

    method Add(k: N.Kind, ghost done: set<N.Kind>)
      requires Holds(done) && N.Registered(k) && k !in done
      modifies this
      ensures Holds(done + {k})
    {
      forall j | j in done ensures N.NewPrefix(j) != N.NewPrefix(k) && N.TypeName(j) != N.TypeName(k) {
        N.NamesTellKinds(j, k);
      }
      byNewPrefix := byNewPrefix[N.NewPrefix(k) := k];
      byTypeName := byTypeName[N.TypeName(k) := k];
    }

    /** decodeLegacy: the type names are tried in any order; the answer does not depend on it. */
    method DecodeLegacy(nodeID: string) returns (r: Result<(N.Kind, Int64)>)
      requires Valid()
      ensures r == N.DecodeLegacy(nodeID)
    {
      var decoded := Base64.Decode(nodeID, Std);
      if decoded.None? {
        return Err;
      }
      var cut := Cut(decoded.value, ':');
      if cut.None? {
        return Err;
      }
      var body := cut.value.1;
      r := ScanNames(cut.value.1);
    }

    method ScanNames(body: string) returns (r: Result<(N.Kind, Int64)>)
      requires Valid()
      ensures r == N.Named(body)
    {
      var unvisited := byTypeName.Keys;
      while unvisited != {}
        invariant unvisited <= byTypeName.Keys
        invariant forall t :: t in byTypeName && t !in unvisited ==> N.TryName(body, t) == None
        decreases |unvisited|
      {
        var t :| t in unvisited;
        unvisited := unvisited - {t};
        var id := N.TryName(body, t);
        if id.Some? {
          N.FoundName(body, byTypeName[t], id.value);
          return Ok((byTypeName[t], id.value));
        }
      }
      forall k | N.Registered(k) ensures N.TryName(body, N.TypeName(k)) == None {
        assert N.TypeName(k) in byTypeName;
      }
      N.NoName(body);
      return Err;
    }

    method Decode(nodeID: string) returns (r: Result<(N.Kind, Int64)>)
      requires Valid()
      ensures r == N.Decode(nodeID)
    {
      if nodeID == "" {
        return Err;
      }
      var cut := Cut(nodeID, '_');
      if cut.Some? {
        var (prefix, rest) := cut.value;
        if prefix in byNewPrefix {
          N.KindOfPrefixIs(byNewPrefix[prefix]);
          return N.DecodeNew(byNewPrefix[prefix], rest);
        }
        assert N.KindOfPrefix(prefix).None? by {
          forall k | N.Registered(k) ensures N.NewPrefix(k) != prefix {
            assert N.NewPrefix(k) in byNewPrefix;
          }
        }
      }
      r := DecodeLegacy(nodeID);
    }
  }

  /** Encode: the new format's payload is built in a fixed buffer. */
  method Encode(kind: N.Kind, dbID: Int64, format: N.Format) returns (id: GoString)
    ensures id == N.Encode(kind, dbID, format)
  {
    var entry := N.Registry(kind);
    if entry.None? {
      return [];
    }
    var e := entry.value;
    if format.Legacy? {
      return Base64.Encode(N.LegacyBody(e, dbID), Std);
    }
    var buf := new Octet[1 + MaxLen](_ => Byte(0));
    buf[0] := N.VersionByte;
    var n := PutVarintInto(buf, 1, dbID);
    assert buf[..1 + n] == buf[..1] + buf[1..1 + n];
    assert buf[..1] == [N.VersionByte];
    return e.newPrefix + ['_'] + Base64.Encode(buf[..1 + n], RawUrl);
  }
}
