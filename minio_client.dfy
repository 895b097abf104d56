/** The object-store wrapper: key derivation for uploads and metadata, bucket
    provisioning, and the operations that report store errors as `False`,
    `None`, `0` or an empty list instead of raising. The store is a set of
    buckets and a map from `(bucket, object name)` to contents; a store call
    fails when its bucket or object is missing, or when the `fail` argument
    injects a transport error. */
module MinioClient {
  import opened Wrappers
  import opened Text
  import opened Errors
  import opened MediaIO

  /** The S3-compatible store. */
  class ObjectStore {
    var buckets: set<string>
    var objects: map<(string, string), Bytes>

    constructor (buckets: set<string>, objects: map<(string, string), Bytes>)
      ensures this.buckets == buckets && this.objects == objects
    {
      this.buckets := buckets;
      this.objects := objects;
    }
  }

  /** One entry of `list_files` (modification time and tag are left out). */
  datatype FileInfo = FileInfo(name: string, size: nat)

  /** The buckets the client makes sure of on construction. */
  function RequiredBuckets(defaultBucket: string): (r: seq<string>)
    ensures |r| == 5 && r[0] == defaultBucket
  {
    [defaultBucket, "processed-videos", "extracted-frames", "processed-images", "temp"]
  }

  /** Python truthiness of an optional string argument. */
  predicate Given(s: Option<string>) {
    s.Some? && s.value != []
  }

  // ---------------------------------------------------------------------
  // Upload naming

  /** `name_<suffix>ext`, with `splitext` cutting off the extension. */
  function SuffixedName(name: string, suffix: string): string {
    SplitExt(name).0 + "_" + suffix + SplitExt(name).1
  }

  /** The object name `upload_file` stores under: the explicit name when one
      is given and differs from the file's basename, otherwise the basename
      with the random suffix before its extension. */
  function StoredName(objectName: Option<string>, filePath: string, suffix: string): (r: string)
    ensures Given(objectName) && objectName.value != Basename(filePath) ==> r == objectName.value
    ensures !Given(objectName) || objectName.value == Basename(filePath) ==> r == SuffixedName(Basename(filePath), suffix)
  {
    var name := if Given(objectName) then objectName.value else Basename(filePath);
    if name == Basename(filePath) then SuffixedName(name, suffix) else name
  }

  /** The key an upload reports. */
  function ObjectKey(bucket: string, name: string): string {
    bucket + "/" + name
  }

  /** A key splits back into its bucket and object name at its first slash,
      since bucket names hold no slash. */
  lemma ObjectKeyParts(bucket: string, name: string)
    requires '/' !in bucket
    ensures var k := ObjectKey(bucket, name);
      && k[|bucket|] == '/' && '/' !in k[..|bucket|]
      && k[..|bucket|] == bucket && k[|bucket| + 1..] == name
  {
    var k := ObjectKey(bucket, name);
    assert k[..|bucket|] == bucket;
    assert k[|bucket| + 1..] == name;
  }

  /** `RFind` is pinned down by its specification. */
  lemma RFindUnique(s: string, c: char, k: int)
    requires -1 <= k < |s| && (k >= 0 ==> s[k] == c)
    requires forall i :: k < i < |s| ==> s[i] != c
    ensures RFind(s, c) == k
  {
    var r := RFind(s, c);
    assert !(r > k);
    assert !(r < k);
  }

  predicate IsHex(s: string) {
    forall i :: 0 <= i < |s| ==> '0' <= s[i] <= '9' || 'a' <= s[i] <= 'f'
  }

  /** A hex suffix holds neither a slash nor a dot. */
  lemma HexHasNoSeparator(suffix: string)
    requires IsHex(suffix)
    ensures '/' !in suffix && '.' !in suffix
  {
    forall i | 0 <= i < |suffix| ensures suffix[i] != '/' && suffix[i] != '.' {
      assert '0' <= suffix[i] <= '9' || 'a' <= suffix[i] <= 'f';
    }
  }

  /** The random suffix goes before the extension and leaves it as it was:
      `splitext` of the stored name gives back the original extension. */
  lemma SuffixKeepsExtension(name: string, suffix: string)
    requires '/' !in name && IsHex(suffix)
    ensures SplitExt(SuffixedName(name, suffix)).1 == SplitExt(name).1
  {
    HexHasNoSeparator(suffix);
    SplitExtShape(name);
    if SplitExt(name).1 != [] {
      SuffixBeforeExtension(SplitExt(name).0, SplitExt(name).1, suffix);
    } else {
      var t := "_" + suffix;
      assert '/' !in t && '.' !in t by {
        assert forall x :: x in t ==> x == '_' || x in suffix;
      }
      assert SuffixedName(name, suffix) == name + t;
      assert name[ExtStart(name)..] == [];
      NoExtensionAppend(name, t);
    }
  }

  /** With an extension, the last dot of the suffixed name is the one that
      starts it, and the stem before it ends in the suffix. */
  lemma SuffixBeforeExtension(root: string, ext: string, suffix: string)
    requires '/' !in root && '/' !in suffix && '.' !in suffix
    requires ext != [] && ext[0] == '.' && '.' !in ext[1..] && '/' !in ext
    ensures SplitExt(root + "_" + suffix + ext).1 == ext
  {
    var head := root + "_" + suffix;
    var w := head + ext;
    assert '/' !in w;
    RFindUnique(w, '/', -1);
    forall i | |head| < i < |w| ensures w[i] != '.' {
      assert w[i] == ext[i - |head|];
      assert ext[1..][i - |head| - 1] == ext[i - |head|];
    }
    assert w[|head|] == '.';
    RFindUnique(w, '.', |head|);
    assert w[..|head|] == head && head[|root|] == '_';
    assert !AllDots(w[0..|head|]);
    assert w[|head|..] == ext;
  }

  /** Appending text without `c` leaves the last `c` where it was. */
  lemma {:induction false} RFindAppend(s: string, t: string, c: char)
    requires c !in t
    ensures RFind(s + t, c) == RFind(s, c)
    decreases |t|
  {
    if t != [] {
      var u, t' := s + t, t[..|t| - 1];
      assert u[|u| - 1] == t[|t| - 1] && t[|t| - 1] in t;
      assert u[..|u| - 1] == s + t';
      assert forall x :: x in t' ==> x in t;
      RFindAppend(s, t', c);
    } else {
      assert s + t == s;
    }
  }

  /** Appending text with neither a slash nor a dot to a name without an
      extension leaves it without one: the name's slashes and dots are all
      there are, so the test that refused an extension refuses it again. */
  lemma NoExtensionAppend(name: string, t: string)
    requires '/' !in t && '.' !in t
    requires ExtStart(name) == |name|
    ensures ExtStart(name + t) == |name + t|
  {
    RFindAppend(name, t, '/');
    RFindAppend(name, t, '.');
    var sep, dot := RFind(name, '/'), RFind(name, '.');
    if dot > sep {
      assert (name + t)[sep + 1..dot] == name[sep + 1..dot];
    }
  }

  /** The object name under which video metadata is kept. */
  function MetadataObjectName(videoId: string): (r: string)
    ensures '/' in r
  {
    assert ("metadata/" + videoId + ".json")[8] == '/';
    "metadata/" + videoId + ".json"
  }

  /** The metadata name is never a file's basename, so an upload under it
      keeps it verbatim and adds no suffix. */
  lemma MetadataNameVerbatim(videoId: string, filePath: string, suffix: string)
    ensures StoredName(Some(MetadataObjectName(videoId)), filePath, suffix) == MetadataObjectName(videoId)
  {
    assert MetadataObjectName(videoId) != Basename(filePath);
  }

  // ---------------------------------------------------------------------
  // Provisioning

  /** The buckets present after provisioning `required` from `buckets`, where
      `fault(i)` says whether the store call for the `i`-th bucket fails. */
  function Provision(buckets: set<string>, required: seq<string>, fault: nat -> bool): set<string> {
    buckets + set i | 0 <= i < |required| && !fault(i) :: required[i]
  }

  /** Provisioning only adds: it keeps every bucket, adds every required one
      whose call did not fail, adds nothing else, and a second run with no
      new failure changes nothing. */
  lemma ProvisionContract(buckets: set<string>, required: seq<string>, fault: nat -> bool, again: nat -> bool)
    ensures buckets <= Provision(buckets, required, fault)
    ensures forall i :: 0 <= i < |required| && !fault(i) ==> required[i] in Provision(buckets, required, fault)
    ensures forall b :: b in Provision(buckets, required, fault) && b !in buckets ==> b in required
    ensures Provision(Provision(buckets, required, fault), required, again) ==
            Provision(buckets, required, fault) + Provision({}, required, again)
  {
  }

  /** With no failure every required bucket exists afterwards. */
  lemma ProvisionCovers(buckets: set<string>, required: seq<string>, fault: nat -> bool)
    requires forall i :: 0 <= i < |required| ==> !fault(i)
    ensures forall b :: b in required ==> b in Provision(buckets, required, fault)
  {
    forall b | b in required ensures b in Provision(buckets, required, fault) {
      var i :| 0 <= i < |required| && required[i] == b;
      assert !fault(i);
    }
  }

  // ---------------------------------------------------------------------
  // Derived values

  /** The objects of one bucket. */
  function KeysIn(objects: map<(string, string), Bytes>, bucket: string): set<(string, string)> {
    set k | k in objects && k.0 == bucket
  }

  /** The total size of the objects under `keys`. */
  ghost function SumSizes(objects: map<(string, string), Bytes>, keys: set<(string, string)>): int
    requires keys <= objects.Keys
    decreases |keys|
  {
    if keys == {} then 0
    else
      var k :| k in keys;
      |objects[k]| + SumSizes(objects, keys - {k})
  }

  /** The total does not depend on the order of summation: any key can be
      taken out first. */
  lemma {:induction false} SumSizesRemove(objects: map<(string, string), Bytes>, keys: set<(string, string)>, k: (string, string))
    requires keys <= objects.Keys && k in keys
    ensures SumSizes(objects, keys) == |objects[k]| + SumSizes(objects, keys - {k})
    decreases |keys|
  {
    var j :| j in keys && SumSizes(objects, keys) == |objects[j]| + SumSizes(objects, keys - {j});
    if j != k {
      SumSizesRemove(objects, keys - {j}, k);
      SumSizesRemove(objects, keys - {k}, j);
      assert keys - {j} - {k} == keys - {k} - {j};
    }
  }

  lemma {:induction false} SumSizesNonNegative(objects: map<(string, string), Bytes>, keys: set<(string, string)>)
    requires keys <= objects.Keys
    ensures SumSizes(objects, keys) >= 0
    decreases |keys|
  {
    if keys != {} {
      var k :| k in keys && SumSizes(objects, keys) == |objects[k]| + SumSizes(objects, keys - {k});
      SumSizesNonNegative(objects, keys - {k});
    }
  }

  /** Starts-with test of `prefix`. */
  predicate HasPrefix(s: string, prefix: string) {
    |prefix| <= |s| && s[..|prefix|] == prefix
  }

  /** The client: a store connection and the default bucket. */
  class Client {
    const store: ObjectStore
    const defaultBucket: string

    /** `MinIOClient()`: connects and provisions the required buckets. */
    constructor (store: ObjectStore, defaultBucket: string, fault: nat -> bool)
      modifies store
      ensures this.store == store && this.defaultBucket == defaultBucket
      ensures store.buckets == Provision(old(store.buckets), RequiredBuckets(defaultBucket), fault)
      ensures store.objects == old(store.objects)
    {
      this.store := store;
      this.defaultBucket := defaultBucket;
      new;
      EnsureBucketsExist(fault);
    }

    /** `_ensure_buckets_exist`: creates each missing required bucket; a
        failing call is logged and the loop goes on. */
    method EnsureBucketsExist(fault: nat -> bool)
      modifies store
      ensures store.buckets == Provision(old(store.buckets), RequiredBuckets(defaultBucket), fault)
      ensures store.objects == old(store.objects)
    {
      var required := RequiredBuckets(defaultBucket);
      var i := 0;
      while i < |required|
        invariant 0 <= i <= |required|
        invariant store.buckets == Provision(old(store.buckets), required[..i], fault)
        invariant store.objects == old(store.objects)
      {
        assert required[..i + 1][..i] == required[..i];
        if !fault(i) && required[i] !in store.buckets {
          store.buckets := store.buckets + {required[i]};
        }
        i := i + 1;
      }
      assert required[..i] == required;
    }

    /** `upload_file`: a missing local file is refused before the store is
        touched; otherwise the file goes under the derived name in the chosen
        bucket and the key `bucket/name` comes back, or the store error
        propagates. */
    method UploadFile(fs: FileSystem, filePath: string, bucketName: Option<string>,
                      objectName: Option<string>, suffix: string, fail: bool)
      returns (r: Result<string, Error>)
      modifies store
      ensures store.buckets == old(store.buckets)
      ensures filePath !in fs.files ==> r == Err(LocalFileNotFound(filePath)) && store.objects == old(store.objects)
      ensures filePath in fs.files ==>
        var bucket := if Given(bucketName) then bucketName.value else defaultBucket;
        var name := StoredName(objectName, filePath, suffix);
        if fail || bucket !in old(store.buckets) then
          r == Err(S3Error(if fail then "InternalError" else "NoSuchBucket", bucket, name)) &&
          store.objects == old(store.objects)
        else
          r == Ok(ObjectKey(bucket, name)) &&
          store.objects == old(store.objects)[(bucket, name) := fs.files[filePath]]
    {
      if filePath !in fs.files {
        return Err(LocalFileNotFound(filePath));
      }
      var bucket := if Given(bucketName) then bucketName.value else defaultBucket;
      var name := if Given(objectName) then objectName.value else Basename(filePath);
      if name == Basename(filePath) {
        name := SuffixedName(name, suffix);
      }
      if fail {
        return Err(S3Error("InternalError", bucket, name));
      }
      if bucket !in store.buckets {
        return Err(S3Error("NoSuchBucket", bucket, name));
      }
      store.objects := store.objects[(bucket, name) := fs.files[filePath]];
      r := Ok(ObjectKey(bucket, name));
    }

    /** `download_file`: the target's directory is made first, which raises
        (outside the S3 handler) for a bare file name; a store error gives
        `False`. */
    method DownloadFile(fs: FileSystem, bucket: string, objectName: string, filePath: string, fail: bool)
      returns (r: Result<bool, Error>)
      modifies fs
      ensures fs.handles == old(fs.handles)
      ensures '/' !in filePath ==> r == Err(NoSuchDirectory([])) && fs.files == old(fs.files)
      ensures '/' in filePath ==>
        var found := !fail && bucket in store.buckets && (bucket, objectName) in store.objects;
        r == Ok(found) &&
        fs.files == if found then old(fs.files)[filePath := store.objects[(bucket, objectName)]] else old(fs.files)
    {
      if '/' !in filePath {
        return Err(NoSuchDirectory([]));
      }
      if fail || bucket !in store.buckets || (bucket, objectName) !in store.objects {
        return Ok(false);
      }
      fs.WriteFile(filePath, store.objects[(bucket, objectName)]);
      r := Ok(true);
    }

    /** `get_file_url`: the presigned URL, or nothing on a store error. */
    method GetFileUrl(bucket: string, objectName: string, expires: int,
                      sign: (string, string, int) -> string, fail: bool)
      returns (url: Option<string>)
      ensures url.None? <==> fail
      ensures url.Some? ==> url.value == sign(bucket, objectName, expires)
    {
      if fail {
        return None;
      }
      url := Some(sign(bucket, objectName, expires));
    }

    /** `delete_file`: removes the object (deleting an absent one succeeds);
        a missing bucket or a failing call gives `False` and changes nothing. */
    method DeleteFile(bucket: string, objectName: string, fail: bool) returns (ok: bool)
      modifies store
      ensures ok <==> !fail && bucket in old(store.buckets)
      ensures store.buckets == old(store.buckets)
      ensures store.objects == if ok then old(store.objects) - {(bucket, objectName)} else old(store.objects)
    {
      if fail || bucket !in store.buckets {
        return false;
      }
      store.objects := store.objects - {(bucket, objectName)};
      ok := true;
    }

    /** `copy_file`: copies the source object over the destination; a missing
        source or destination bucket, or a failing call, gives `False`. */
    method CopyFile(sourceBucket: string, sourceObject: string, destBucket: string, destObject: string, fail: bool)
      returns (ok: bool)
      modifies store
      ensures ok <==> !fail && (sourceBucket, sourceObject) in old(store.objects) && destBucket in old(store.buckets)
      ensures store.buckets == old(store.buckets)
      ensures store.objects ==
        if ok then old(store.objects)[(destBucket, destObject) := old(store.objects)[(sourceBucket, sourceObject)]]
        else old(store.objects)
    {
      if fail || (sourceBucket, sourceObject) !in store.objects || destBucket !in store.buckets {
        return false;
      }
      store.objects := store.objects[(destBucket, destObject) := store.objects[(sourceBucket, sourceObject)]];
      ok := true;
    }

    /** `list_files`: every object of the bucket whose name starts with the
        prefix, once each, with its size; an empty list on a store error. */
    method ListFiles(bucketName: Option<string>, prefix: string, fail: bool) returns (files: seq<FileInfo>)
      ensures var bucket := if Given(bucketName) then bucketName.value else defaultBucket;
        if fail || bucket !in store.buckets then files == []
        else
          && (forall i, j :: 0 <= i < j < |files| ==> files[i].name != files[j].name)
          && (forall f :: f in files ==>
                (bucket, f.name) in store.objects && HasPrefix(f.name, prefix) &&
                f.size == |store.objects[(bucket, f.name)]|)
          && (forall k :: k in store.objects && k.0 == bucket && HasPrefix(k.1, prefix) ==>
                exists f :: f in files && f.name == k.1)
    {
      var bucket := if Given(bucketName) then bucketName.value else defaultBucket;
      if fail || bucket !in store.buckets {
        return [];
      }
      var pending := set k | k in store.objects && k.0 == bucket && HasPrefix(k.1, prefix);
      files := [];
      while pending != {}
        invariant pending <= store.objects.Keys
        invariant forall k :: k in pending ==> k.0 == bucket && HasPrefix(k.1, prefix)
        invariant forall i, j :: 0 <= i < j < |files| ==> files[i].name != files[j].name
        invariant forall f :: f in files ==>
                    (bucket, f.name) in store.objects && (bucket, f.name) !in pending &&
                    HasPrefix(f.name, prefix) && f.size == |store.objects[(bucket, f.name)]|
        invariant forall k :: k in store.objects && k.0 == bucket && HasPrefix(k.1, prefix) ==>
                    k in pending || exists f :: f in files && f.name == k.1
        decreases |pending|
      {
        var k :| k in pending;
        files := files + [FileInfo(k.1, |store.objects[k]|)];
        pending := pending - {k};
      }
    }

    /** `list_buckets`: every bucket name once, or an empty list on a store
        error. */
    method ListBuckets(fail: bool) returns (names: seq<string>)
      ensures fail ==> names == []
      ensures !fail ==> (forall b :: b in names <==> b in store.buckets) && |names| == |store.buckets|
    {
      if fail {
        return [];
      }
      var pending := store.buckets;
      names := [];
      while pending != {}
        invariant pending <= store.buckets
        invariant forall b :: b in store.buckets <==> b in pending || b in names
        invariant forall b :: b in names ==> b !in pending
        invariant |names| + |pending| == |store.buckets|
        decreases |pending|
      {
        var b :| b in pending;
        names := names + [b];
        pending := pending - {b};
      }
    }

    /** `bucket_exists`: `False` on a store error. */
    method BucketExists(bucket: string, fail: bool) returns (exists_: bool)
      ensures exists_ <==> !fail && bucket in store.buckets
    {
      exists_ := !fail && bucket in store.buckets;
    }

    /** `get_bucket_size`: the sum of the sizes of the bucket's objects, or 0
        on a store error. */
    method GetBucketSize(bucket: string, fail: bool) returns (total: int)
      ensures fail || bucket !in store.buckets ==> total == 0
      ensures !fail && bucket in store.buckets ==> total == SumSizes(store.objects, KeysIn(store.objects, bucket))
      ensures total >= 0
    {
      if fail || bucket !in store.buckets {
        return 0;
      }
      var all := KeysIn(store.objects, bucket);
      var pending := all;
      total := 0;
      while pending != {}
        invariant pending <= all <= store.objects.Keys
        invariant total + SumSizes(store.objects, pending) == SumSizes(store.objects, all)
        invariant total >= 0
        decreases |pending|
      {
        var k :| k in pending;
        SumSizesRemove(store.objects, pending, k);
        total := total + |store.objects[k]|;
        pending := pending - {k};
      }
      SumSizesNonNegative(store.objects, all);
    }

    /** `upload_video_metadata`: writes the encoded metadata to a fresh
        temporary file, uploads it under the metadata name in the default
        bucket, and removes the temporary file whether or not the upload
        worked. Metadata that JSON cannot encode raises while the file is
        being written, before the upload and its clean-up: nothing is stored and
        the temporary file stays behind, with whatever was written of it. */
    method UploadVideoMetadata<M>(fs: FileSystem, videoId: string, metadata: M, encode: M -> Option<Bytes>,
                                  tempPath: string, suffix: string, fail: bool)
      returns (r: Result<string, Error>)
      modifies fs, store
      ensures fs.handles == old(fs.handles) && store.buckets == old(store.buckets)
      ensures encode(metadata).None? ==>
        && r == Err(NotSerializable) && store.objects == old(store.objects)
        && tempPath in fs.files && fs.files - {tempPath} == old(fs.files) - {tempPath}
      ensures encode(metadata).Some? ==>
        var name := MetadataObjectName(videoId);
        && fs.files == old(fs.files) - {tempPath}
        && if fail || defaultBucket !in old(store.buckets) then
             r == Err(S3Error(if fail then "InternalError" else "NoSuchBucket", defaultBucket, name)) &&
             store.objects == old(store.objects)
           else
             r == Ok(ObjectKey(defaultBucket, name)) &&
             store.objects == old(store.objects)[(defaultBucket, name) := encode(metadata).value]
    {
      var data := encode(metadata);
      if data.None? {
        fs.WriteFile(tempPath, []);
        return Err(NotSerializable);
      }
      fs.WriteFile(tempPath, data.value);
      MetadataNameVerbatim(videoId, tempPath, suffix);
      r := UploadFile(fs, tempPath, Some(defaultBucket), Some(MetadataObjectName(videoId)), suffix, fail);
      fs.Unlink(tempPath);
    }

    /** `get_video_metadata`: downloads the metadata object to a fresh
        temporary file and parses it; a failed download or a parse error gives
        nothing, and the temporary file is always removed. */
    method GetVideoMetadata<M>(fs: FileSystem, videoId: string, decode: Bytes -> Option<M>,
                               tempPath: string, fail: bool)
      returns (r: Option<M>)
      modifies fs
      ensures fs.files == old(fs.files) - {tempPath} && fs.handles == old(fs.handles)
      ensures var key := (defaultBucket, MetadataObjectName(videoId));
        var found := '/' in tempPath && !fail && defaultBucket in store.buckets && key in store.objects;
        r == if found then decode(store.objects[key]) else None
    {
      fs.WriteFile(tempPath, []);
      var downloaded := DownloadFile(fs, defaultBucket, MetadataObjectName(videoId), tempPath, fail);
      if downloaded == Ok(true) {
        r := decode(fs.files[tempPath]);
      } else {
        r := None;
      }
      fs.Unlink(tempPath);
    }

    /** Metadata written and read back through the store is what was
        written, when the metadata encodes as JSON that reads back and the
        store works. */
    method MetadataRoundTrip<M>(fs: FileSystem, videoId: string, metadata: M,
                                encode: M -> Option<Bytes>, decode: Bytes -> Option<M>,
                                tempPath: string, suffix: string)
      returns (back: Option<M>)
      requires encode(metadata).Some? && decode(encode(metadata).value) == Some(metadata)
      requires defaultBucket in store.buckets && '/' in tempPath
      modifies fs, store
      ensures back == Some(metadata)
      ensures fs.files == old(fs.files) - {tempPath}
    {
      var key := UploadVideoMetadata(fs, videoId, metadata, encode, tempPath, suffix, false);
      back := GetVideoMetadata(fs, videoId, decode, tempPath, false);
    }
  }
}
