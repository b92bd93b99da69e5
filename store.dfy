/**
 The persistent store as the registry sees it: a map from key to stored
 record, the key layout, reading one record back, and the path transform
 that shards keys into directories.
 */
module Store {
  import opened Types

  const DbPrefix: string := "ngrok"

  /** A stored payload: the encoding of a config, or bytes that do not decode. */
  datatype Blob = Encoded(config: UserConfig) | Garbled

  type Disk = map<string, Blob>

  /** The key a config is saved under. */
  function KeyFor(authId: string): (k: string)
    ensures DbPrefix <= k && |k| == |DbPrefix| + 1 + |authId|
    ensures k[|DbPrefix|] == ':' && k[|DbPrefix| + 1..] == authId
  {
    DbPrefix + ":" + authId
  }

  /** Distinct accounts never share a store key. */
  lemma KeyForInjective(a: string, b: string)
    requires KeyFor(a) == KeyFor(b)
    ensures a == b
  {
    assert a == KeyFor(a)[|DbPrefix| + 1..];
  }

  /** The keys the prefix scan of `LoadAll` visits: diskv's `KeysPrefix(DbPrefix, nil)`, every stored key starting with "ngrok". */
  function ScannedKeys(disk: Disk): set<string> {
    set k | k in disk && DbPrefix <= k
  }

  lemma SavedKeyIsScanned(disk: Disk, uc: UserConfig)
    ensures KeyFor(uc.authId) in ScannedKeys(disk[KeyFor(uc.authId) := Encoded(uc)])
  {
  }

  datatype LoadError = ReadFailed | DecodeFailed

  /** Go's `(*UserConfig, error)` result of `loadFrom`. */
  datatype Loaded = Loaded(uc: Option<UserConfig>, err: Option<LoadError>)

  /**
   `loadFrom` as written: when the payload does not decode it returns the
   (nil) read error instead of the decode error.
   */
  function LoadFromAsWritten(disk: Disk, key: string): Loaded {
    if key !in disk then Loaded(None, Some(ReadFailed))
    else match disk[key]
      case Encoded(uc) => Loaded(Some(uc), None)
      case Garbled => Loaded(None, None)
  }

  /** A garbled record comes back with neither a config nor an error. */
  lemma LoadFromAsWrittenLosesError(disk: Disk, key: string)
    requires key in disk && disk[key] == Garbled
    ensures LoadFromAsWritten(disk, key).err == None && LoadFromAsWritten(disk, key).uc == None
  {
  }

  /** `loadFrom` returning the decode error, as its `if` evidently intends. */
  function LoadFrom(disk: Disk, key: string): (l: Loaded)
    ensures l.err.None? <==> l.uc.Some?
    ensures l.uc.Some? <==> key in disk && disk[key].Encoded?
    ensures l.uc.Some? ==> l.uc.value == disk[key].config
  {
    if key !in disk then Loaded(None, Some(ReadFailed))
    else match disk[key]
      case Encoded(uc) => Loaded(Some(uc), None)
      case Garbled => Loaded(None, Some(DecodeFailed))
  }

  /** What a saved config reads back as. */
  lemma SaveThenLoad(disk: Disk, uc: UserConfig)
    ensures LoadFrom(disk[KeyFor(uc.authId) := Encoded(uc)], KeyFor(uc.authId)) == Loaded(Some(uc), None)
  {
  }

  /**
   `blockTransform`: the two directory names a key is stored under, the
   first two pairs of its characters, or "__small" twice for a short key.
   */
  method BlockTransform(s: string) returns (path: seq<string>)
    ensures |path| == 2
    ensures |s| < 4 ==> path == ["__small", "__small"]
    ensures |s| >= 4 ==> path == [s[0..2], s[2..4]]
  {
    var block, word := 2, 2;
    var pathSlice := new string[block];
    if |s| < block * word {
      for i := 0 to block
        invariant forall j :: 0 <= j < i ==> pathSlice[j] == "__small"
      {
        pathSlice[i] := "__small";
      }
      return pathSlice[..];
    }
    for i := 0 to block
      invariant forall j :: 0 <= j < i ==> pathSlice[j] == s[word * j..word * (j + 1)]
    {
      pathSlice[i] := s[word * i..word * (i + 1)];
    }
    return pathSlice[..];
  }

  /** Every record key falls in the same shard, "ng/ro". */
  lemma RecordKeyShard(authId: string)
    ensures |KeyFor(authId)| >= 4
    ensures KeyFor(authId)[0..2] == "ng" && KeyFor(authId)[2..4] == "ro"
  {
  }

  /** The configs a scan in key order `order` hands to the registry, garbled records skipped. */
  function Configs(disk: Disk, order: seq<string>): seq<UserConfig>
    decreases |order|
  {
    if order == [] then []
    else
      var k := order[|order| - 1];
      Configs(disk, order[..|order| - 1])
        + (match LoadFrom(disk, k).uc case Some(uc) => [uc] case None => [])
  }

  /** Each config handed over is the record stored under one of the scanned keys. */
  lemma {:induction false} ConfigsFrom(disk: Disk, order: seq<string>, c: UserConfig)
    requires c in Configs(disk, order)
    ensures exists k :: k in order && k in disk && disk[k] == Encoded(c)
    decreases |order|
  {
    var init, k := order[..|order| - 1], order[|order| - 1];
    if c in Configs(disk, init) {
      ConfigsFrom(disk, init, c);
      var k' :| k' in init && k' in disk && disk[k'] == Encoded(c);
      assert k' in order;
    } else {
      assert disk[k] == Encoded(c);
    }
  }

  /** Every decodable scanned record is handed over. */
  lemma {:induction false} ConfigsComplete(disk: Disk, order: seq<string>, j: nat)
    requires j < |order| && order[j] in disk && disk[order[j]].Encoded?
    ensures exists i :: 0 <= i < |Configs(disk, order)| && Configs(disk, order)[i] == disk[order[j]].config
    decreases |order|
  {
    var init := order[..|order| - 1];
    if j < |order| - 1 {
      assert init[j] == order[j];
      ConfigsComplete(disk, init, j);
      var i :| 0 <= i < |Configs(disk, init)| && Configs(disk, init)[i] == disk[order[j]].config;
      assert Configs(disk, order)[i] == Configs(disk, init)[i];
    } else {
      assert Configs(disk, order)[|Configs(disk, order)| - 1] == disk[order[j]].config;
    }
  }
}
