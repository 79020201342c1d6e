/**
 * S3FileStorageProvider: the string work around the S3 calls. Stored-file
 * ids are the URL-encoded object keys, a folder listing hides every name
 * that starts with `__`, thumbnails live under `__thumbnails/`, and a
 * stored file's name, URI and thumbnail URI come from the object key and
 * its user metadata.
 *
 * The S3 requests themselves are parameters: a listing is given as the
 * common prefixes and the objects (each with the metadata the provider
 * fetched for it), and the image pipeline's output is given as an optional
 * byte sequence.
 */
module S3Storage {
  import opened Common
  import opened UrlCodec

  const FileNameKey: string := "x-file-name"
  const ThumbnailKeyKey: string := "x-thumbnail-key"
  const FolderContentType: string := "inode/directory"

  /** An object's metadata: its content type and its user metadata. */
  datatype ObjectMeta = ObjectMeta(contentType: Option<string>, userMetadata: map<string, string>)

  /** The API's StoredFile. */
  datatype StoredFile = StoredFile(
    id: string,
    contentType: Option<string>,
    fileName: string,
    uri: string,
    thumbnailUri: Option<string>)

  // ---------------------------------------------------------------------
  // Keys and ids
  // ---------------------------------------------------------------------

  /** getStoredFileId */
  function StoredFileId(key: string): string
  {
    Encode(key)
  }

  /** getKey; None is the IllegalArgumentException of a malformed id. */
  function KeyOf(storedFileId: string): Option<string>
  {
    Decode(storedFileId)
  }

  /** getKey(getStoredFileId(key)) == key for every key. */
  lemma KeyOfStoredFileId(key: string)
    ensures KeyOf(StoredFileId(key)) == Some(key)
  {
    DecodeEncode(key);
  }

  // ---------------------------------------------------------------------
  // Folder prefixes and hidden names
  // ---------------------------------------------------------------------

  /** StringUtils.stripStart(s, "/") */
  function StripStart(s: string): (r: string)
    ensures |r| <= |s| && r == s[|s| - |r|..]
    ensures forall i :: 0 <= i < |s| - |r| ==> s[i] == '/'
    ensures r == [] || r[0] != '/'
  {
    if s != [] && s[0] == '/' then
      var r := StripStart(s[1..]);
      assert s[1..][|s| - 1 - |r|..] == s[|s| - |r|..];
      r
    else s
  }

  /** StringUtils.stripEnd(s, "/") */
  function StripEnd(s: string): (r: string)
    ensures |r| <= |s| && r == s[..|r|]
    ensures forall i :: |r| <= i < |s| ==> s[i] == '/'
    ensures r == [] || r[|r| - 1] != '/'
  {
    if s != [] && s[|s| - 1] == '/' then
      var r := StripEnd(s[..|s| - 1]);
      assert s[..|s| - 1][..|r|] == s[..|r|];
      r
    else s
  }

  /** Both ends stripped of `/`. */
  function StripSlashes(s: string): string
  {
    StripEnd(StripStart(s))
  }

  /** `s` is the stripped core with only slashes around it, `lead` of them in front. */
  lemma StripSlashesShape(s: string) returns (lead: nat)
    ensures lead + |StripSlashes(s)| <= |s|
    ensures s[lead..lead + |StripSlashes(s)|] == StripSlashes(s)
    ensures forall i :: 0 <= i < lead ==> s[i] == '/'
    ensures forall i :: lead + |StripSlashes(s)| <= i < |s| ==> s[i] == '/'
  {
    var t := StripStart(s);
    var core := StripEnd(t);
    lead := |s| - |t|;
    assert t == s[lead..];
    assert core == s[lead..lead + |core|] by {
      assert core == t[..|core|];
    }
    forall i | lead + |core| <= i < |s| ensures s[i] == '/' {
      assert s[i] == t[i - lead];
    }
  }

  /** The stripped core has no slash at either end. */
  lemma StripSlashesEnds(s: string)
    ensures var core := StripSlashes(s); core == [] || (core[0] != '/' && core[|core| - 1] != '/')
  {
    var t := StripStart(s);
    var core := StripEnd(t);
    if core != [] {
      assert core[0] == t[0];
    }
  }

  /** The prefix list() builds from a folder: the folder stripped of `/` at both ends, plus one `/`. */
  function ListPrefix(folder: string): string
  {
    StripSlashes(folder) + "/"
  }

  /** The prefix put on the listing request: only one other than `/`. */
  function RequestPrefix(folder: string): (r: Option<string>)
  {
    var p := ListPrefix(folder);
    if |p| > 0 && p != "/" then Some(p) else None
  }

  /**
   * A folder made only of slashes (the empty folder included) lists the
   * bucket root; any other folder lists `core + "/"`, whose core has no
   * slash at either end.
   */
  lemma RequestPrefixCases(folder: string)
    ensures RequestPrefix(folder).None? <==> forall i :: 0 <= i < |folder| ==> folder[i] == '/'
    ensures RequestPrefix(folder).Some? ==>
      var p := RequestPrefix(folder).value;
      && p == StripSlashes(folder) + "/" && |p| >= 2 && p[0] != '/' && p[|p| - 2] != '/'
  {
    var lead := StripSlashesShape(folder);
    StripSlashesEnds(folder);
    var core := StripSlashes(folder);
    if core == [] {
      assert ListPrefix(folder) == "/";
    } else {
      assert ListPrefix(folder)[0] == core[0] != '/';
      assert folder[lead] == core[0];
    }
  }

  /** Normalising an already normalised prefix changes nothing. */
  lemma RequestPrefixIdempotent(folder: string)
    ensures RequestPrefix(ListPrefix(folder)) == RequestPrefix(folder)
  {
    var core := StripSlashes(folder);
    StripSlashesEnds(folder);
    var p := core + "/";
    if core == [] {
      assert p == "/" && StripStart(p) == [];
    } else {
      assert StripStart(p) == p by {
        assert p[0] == core[0];
      }
      assert StripEnd(p) == StripEnd(core) by {
        assert p[|p| - 1] == '/' && p[..|p| - 1] == core;
      }
    }
  }

  /** A name the listing hides. */
  predicate Hidden(name: string)
  {
    StartsWith(name, "__")
  }

  // ---------------------------------------------------------------------
  // Stored-file views
  // ---------------------------------------------------------------------

  /** A nullable string in a Kotlin string template: null is written `null`. */
  function Rendered(s: Option<string>): string
  {
    if s.None? then "null" else s.value
  }

  /**
   * translateObject under the configured prefix: the name is the
   * `x-file-name` metadata or else the key, the URI is `prefix/key`, and a
   * thumbnail URI exists exactly when the `x-thumbnail-key` metadata does.
   */
  function TranslateObject(prefix: Option<string>, fileKey: string, meta: ObjectMeta): (r: StoredFile)
    ensures KeyOf(r.id) == Some(fileKey)
    ensures r.contentType == meta.contentType
    ensures FileNameKey in meta.userMetadata ==> r.fileName == meta.userMetadata[FileNameKey]
    ensures FileNameKey !in meta.userMetadata ==> r.fileName == fileKey
    ensures r.uri == Rendered(prefix) + "/" + fileKey
    ensures r.thumbnailUri.Some? <==> ThumbnailKeyKey in meta.userMetadata
    ensures r.thumbnailUri.Some? ==> r.thumbnailUri.value == Rendered(prefix) + "/" + meta.userMetadata[ThumbnailKeyKey]
  {
    KeyOfStoredFileId(fileKey);
    var fileName := if FileNameKey in meta.userMetadata then meta.userMetadata[FileNameKey] else fileKey;
    var thumbnailUri :=
      if ThumbnailKeyKey in meta.userMetadata then Some(Rendered(prefix) + "/" + meta.userMetadata[ThumbnailKeyKey])
      else None;
    StoredFile(StoredFileId(fileKey), meta.contentType, fileName, Rendered(prefix) + "/" + fileKey, thumbnailUri)
  }

  /** translateFolder: a directory entry named by the key without slashes at either end. */
  function TranslateFolder(prefix: Option<string>, key: string): (r: StoredFile)
    ensures KeyOf(r.id) == Some(key)
    ensures r.contentType == Some(FolderContentType) && r.thumbnailUri.None?
    ensures r.fileName == [] || (r.fileName[0] != '/' && r.fileName[|r.fileName| - 1] != '/')
    ensures r.fileName == StripSlashes(key)
    ensures r.uri == Rendered(prefix) + "/" + key
  {
    KeyOfStoredFileId(key);
    StripSlashesEnds(key);
    StoredFile(StoredFileId(key), Some(FolderContentType), StripSlashes(key), Rendered(prefix) + "/" + key, None)
  }

  // ---------------------------------------------------------------------
  // Listing
  // ---------------------------------------------------------------------

  /** The common prefixes the listing keeps, in order. */
  function VisibleFolders(prefixes: seq<string>): (r: seq<string>)
    ensures forall p :: p in r <==> p in prefixes && !Hidden(p)
  {
    if prefixes == [] then []
    else
      var rest := VisibleFolders(prefixes[1..]);
      assert prefixes == [prefixes[0]] + prefixes[1..];
      if Hidden(prefixes[0]) then rest else [prefixes[0]] + rest
  }

  /** The objects the listing keeps, in order. */
  function VisibleObjects(objects: seq<(string, ObjectMeta)>): (r: seq<(string, ObjectMeta)>)
    ensures forall o :: o in r <==> o in objects && !Hidden(o.0)
  {
    if objects == [] then []
    else
      var rest := VisibleObjects(objects[1..]);
      assert objects == [objects[0]] + objects[1..];
      if Hidden(objects[0].0) then rest else [objects[0]] + rest
  }

  /** list: the visible folders, then the visible objects, each translated. */
  function ListFiles(prefix: Option<string>, prefixes: seq<string>, objects: seq<(string, ObjectMeta)>): (r: seq<StoredFile>)
  {
    var folders := VisibleFolders(prefixes);
    var files := VisibleObjects(objects);
    seq(|folders|, i requires 0 <= i < |folders| => TranslateFolder(prefix, folders[i]))
      + seq(|files|, i requires 0 <= i < |files| => TranslateObject(prefix, files[i].0, files[i].1))
  }

  /** Every listed entry is the translation of a visible folder or a visible object of the listing. */
  lemma ListedEntries(prefix: Option<string>, prefixes: seq<string>, objects: seq<(string, ObjectMeta)>)
    ensures forall f :: f in ListFiles(prefix, prefixes, objects) ==>
      || (exists p :: p in prefixes && !Hidden(p) && f == TranslateFolder(prefix, p))
      || (exists o :: o in objects && !Hidden(o.0) && f == TranslateObject(prefix, o.0, o.1))
  {
    var folders := VisibleFolders(prefixes);
    var files := VisibleObjects(objects);
    var r := ListFiles(prefix, prefixes, objects);
    forall f | f in r
      ensures || (exists p :: p in prefixes && !Hidden(p) && f == TranslateFolder(prefix, p))
              || (exists o :: o in objects && !Hidden(o.0) && f == TranslateObject(prefix, o.0, o.1))
    {
      var i :| 0 <= i < |r| && r[i] == f;
      if i < |folders| {
        assert folders[i] in folders;
      } else {
        assert files[i - |folders|] in files;
      }
    }
  }

  /** Every visible folder is listed. */
  lemma ListingShowsFolders(prefix: Option<string>, prefixes: seq<string>, objects: seq<(string, ObjectMeta)>)
    ensures forall p :: p in prefixes && !Hidden(p) ==> TranslateFolder(prefix, p) in ListFiles(prefix, prefixes, objects)
  {
    var folders := VisibleFolders(prefixes);
    var r := ListFiles(prefix, prefixes, objects);
    forall p | p in prefixes && !Hidden(p) ensures TranslateFolder(prefix, p) in r {
      var i :| 0 <= i < |folders| && folders[i] == p;
      assert r[i] == TranslateFolder(prefix, p);
    }
  }

  /** Every visible object is listed. */
  lemma ListingShowsObjects(prefix: Option<string>, prefixes: seq<string>, objects: seq<(string, ObjectMeta)>)
    ensures forall o :: o in objects && !Hidden(o.0) ==> TranslateObject(prefix, o.0, o.1) in ListFiles(prefix, prefixes, objects)
  {
    var folders := VisibleFolders(prefixes);
    var files := VisibleObjects(objects);
    var r := ListFiles(prefix, prefixes, objects);
    forall o | o in objects && !Hidden(o.0) ensures TranslateObject(prefix, o.0, o.1) in r {
      var i :| 0 <= i < |files| && files[i] == o;
      assert r[|folders| + i] == TranslateObject(prefix, o.0, o.1);
    }
  }

  /** The id of every listed entry names a key that is not hidden. */
  lemma ListedKeysVisible(prefix: Option<string>, prefixes: seq<string>, objects: seq<(string, ObjectMeta)>, f: StoredFile)
    requires f in ListFiles(prefix, prefixes, objects)
    ensures KeyOf(f.id).Some? && !Hidden(KeyOf(f.id).value)
  {
    ListedEntries(prefix, prefixes, objects);
  }

  // ---------------------------------------------------------------------
  // Thumbnails and uploads
  // ---------------------------------------------------------------------

  /** The key a file's thumbnail is uploaded under. */
  function ThumbnailKey(fileKey: string): (r: string)
    ensures Hidden(r)
  {
    "__thumbnails/" + fileKey + "-512x512.jpg"
  }

  /** A listing never shows a thumbnail, whichever file it belongs to. */
  lemma ThumbnailsNotListed(prefix: Option<string>, prefixes: seq<string>, objects: seq<(string, ObjectMeta)>, fileKey: string)
    ensures forall f :: f in ListFiles(prefix, prefixes, objects) ==> KeyOf(f.id) != Some(ThumbnailKey(fileKey))
  {
    forall f | f in ListFiles(prefix, prefixes, objects) ensures KeyOf(f.id) != Some(ThumbnailKey(fileKey)) {
      ListedKeysVisible(prefix, prefixes, objects, f);
    }
  }

  /** createThumbnail's gate: only content types under `image/` are thumbnailed. */
  predicate IsImage(contentType: string)
  {
    StartsWith(contentType, "image/")
  }

  /**
   * createThumbnail: the image pipeline's result (read, scale to cover
   * 512, crop, write JPEG; given here as `scaled`) for an image, null for
   * anything else.
   */
  function CreateThumbnail(contentType: string, scaled: Option<seq<Byte>>): (r: Option<seq<Byte>>)
    ensures !IsImage(contentType) ==> r.None?
    ensures IsImage(contentType) ==> r == scaled
  {
    if IsImage(contentType) then scaled else None
  }

  /** uploadThumbnail: the thumbnail's key when a thumbnail was made, else null. */
  function UploadThumbnail(fileKey: string, contentType: string, scaled: Option<seq<Byte>>): (r: Option<string>)
    ensures r.Some? <==> IsImage(contentType) && scaled.Some?
    ensures r.Some? ==> r.value == ThumbnailKey(fileKey) && Hidden(r.value)
  {
    if CreateThumbnail(contentType, scaled).None? then None else Some(ThumbnailKey(fileKey))
  }

  /** uploadObject's metadata: content type, file name, and the thumbnail key when there is one. */
  function UploadMeta(thumbnailKey: Option<string>, contentType: string, fileName: string): (m: ObjectMeta)
    ensures m.contentType == Some(contentType)
    ensures FileNameKey in m.userMetadata && m.userMetadata[FileNameKey] == fileName
    ensures ThumbnailKeyKey in m.userMetadata <==> thumbnailKey.Some?
    ensures thumbnailKey.Some? ==> m.userMetadata[ThumbnailKeyKey] == thumbnailKey.value
  {
    var named := map[FileNameKey := fileName];
    ObjectMeta(Some(contentType), if thumbnailKey.Some? then named[ThumbnailKeyKey := thumbnailKey.value] else named)
  }

  /**
   * The stored file store() returns for an upload into `folder` under the
   * random name `name`: its id is the key's id, its name is the uploaded
   * file's name, and it has a thumbnail exactly when the upload is an image
   * the pipeline could thumbnail.
   */
  lemma StoredUpload(prefix: Option<string>, folder: string, name: string, contentType: string, fileName: string,
                     scaled: Option<seq<Byte>>)
    ensures var fileKey := folder + "/" + name;
      var f := TranslateObject(prefix, fileKey, UploadMeta(UploadThumbnail(fileKey, contentType, scaled), contentType, fileName));
      && KeyOf(f.id) == Some(fileKey)
      && f.fileName == fileName && f.contentType == Some(contentType)
      && f.uri == Rendered(prefix) + "/" + fileKey
      && (f.thumbnailUri.Some? <==> IsImage(contentType) && scaled.Some?)
      && (f.thumbnailUri.Some? ==> f.thumbnailUri.value == Rendered(prefix) + "/" + ThumbnailKey(fileKey))
  {
    var fileKey := folder + "/" + name;
    var thumbnail := UploadThumbnail(fileKey, contentType, scaled);
    var meta := UploadMeta(thumbnail, contentType, fileName);
    assert ThumbnailKeyKey != FileNameKey;
  }

  // ---------------------------------------------------------------------
  // Configuration
  // ---------------------------------------------------------------------

  /** How init ends. */
  datatype InitResult = Initialized | RegionNotSet | BucketNotSet | PrefixNotSet | BucketMissing

  class S3FileStorageProvider {
    var region: Option<string>
    var bucket: Option<string>
    var prefix: Option<string>

    constructor ()
      ensures region.None? && bucket.None? && prefix.None?
    {
      region, bucket, prefix := None, None, None;
    }

    /**
     * init: stores the three environment values, then fails on the first
     * blank one of region, bucket and prefix, then on a missing bucket
     * (`bucketExists` is the answer of doesBucketExistV2).
     */
    method Init(regionEnv: Option<string>, bucketEnv: Option<string>, prefixEnv: Option<string>, bucketExists: bool)
      returns (r: InitResult)
      modifies this
      ensures region == regionEnv && bucket == bucketEnv && prefix == prefixEnv
      ensures r == RegionNotSet <==> IsBlankOrNull(regionEnv)
      ensures r == BucketNotSet <==> !IsBlankOrNull(regionEnv) && IsBlankOrNull(bucketEnv)
      ensures r == PrefixNotSet <==> !IsBlankOrNull(regionEnv) && !IsBlankOrNull(bucketEnv) && IsBlankOrNull(prefixEnv)
      ensures r == BucketMissing <==>
        !IsBlankOrNull(regionEnv) && !IsBlankOrNull(bucketEnv) && !IsBlankOrNull(prefixEnv) && !bucketExists
      ensures r == Initialized <==>
        !IsBlankOrNull(regionEnv) && !IsBlankOrNull(bucketEnv) && !IsBlankOrNull(prefixEnv) && bucketExists
    {
      region, bucket, prefix := regionEnv, bucketEnv, prefixEnv;
      if IsBlankOrNull(region) {
        return RegionNotSet;
      }
      if IsBlankOrNull(bucket) {
        return BucketNotSet;
      }
      if IsBlankOrNull(prefix) {
        return PrefixNotSet;
      }
      if !bucketExists {
        return BucketMissing;
      }
      return Initialized;
    }
  }
}
