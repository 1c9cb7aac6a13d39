/** The key store: a directory of sealed key files, one a name. Names are plain file names, so the
    directory is a map from names to files. */
module KeyStore {
  import opened Bytes
  import opened Wrappers
  import opened Envelope

  const STANDARD_SCRYPT_N: int := 0x4_0000
  const STANDARD_SCRYPT_P: int := 1

  datatype KeyInfo = KeyInfo(keyType: byte, secretKey: seq<byte>)

  /** What lies in the directory: a key file, or a file that does not parse as one. */
  datatype File = Sealing(key: KeyFile) | Unreadable

  datatype StoreError = NoSuchFile | Malformed | NameMismatch | BadKeyInfo | Failed(error: KeyError)

  /** The serialisation of key infos, of which only the round trip is assumed. */
  datatype Codec = Codec(marshal: KeyInfo -> seq<byte>, unmarshal: seq<byte> -> Option<KeyInfo>)
  {
    ghost predicate Valid() {
      forall info :: unmarshal(marshal(info)) == Some(info)
    }
  }

  /** The environment of a store: primitives and serialisation. */
  datatype Env = Env(prim: Primitives, codec: Codec)

  type Directory = map<string, File>

  function SealedInfo(env: Env, name: string, auth: string, info: KeyInfo, salt: seq<byte>, iv: seq<byte>)
    : Result<KeyFile, KeyError>
  {
    Sealed(env.prim, name, env.codec.marshal(info), auth, STANDARD_SCRYPT_N, STANDARD_SCRYPT_P, salt, iv)
  }

  /** Storing seals first, then leaves an existing file alone. */
  function Stored(env: Env, files: Directory, name: string, auth: string, info: KeyInfo, salt: seq<byte>, iv: seq<byte>)
    : (r: (Directory, Result<(), StoreError>))
  {
    match SealedInfo(env, name, auth, info, salt, iv)
    case Err(e) => (files, Err(Failed(e)))
    case Ok(file) => (if name in files then files else files[name := Sealing(Reloaded(file))], Ok(()))
  }

  function Fetched(env: Env, files: Directory, name: string, auth: string): Result<KeyInfo, StoreError> {
    if name !in files then Err(NoSuchFile)
    else if files[name].Unreadable? then Err(Malformed)
    else
      match Opened(env.prim, files[name].key, auth)
      case Err(e) => Err(Failed(e))
      case Ok(secret) =>
        if files[name].key.address != name then Err(NameMismatch)
        else
          match env.codec.unmarshal(secret)
          case None => Err(BadKeyInfo)
          case Some(info) => Ok(info)
  }

  /** Deleting needs the key to be readable. */
  function Removed(env: Env, files: Directory, name: string, auth: string): (Directory, Result<(), StoreError>) {
    match Fetched(env, files, name, auth)
    case Err(e) => (files, Err(e))
    case Ok(_) => (files - {name}, Ok(()))
  }

  class KeyStore {
    var files: Directory
    const env: Env

    /** Opens a directory with whatever files lie in it. */
    constructor (env: Env, files: Directory)
      ensures this.files == files && this.env == env
    {
      this.files := files;
      this.env := env;
    }

    /** `salt` and `iv` are the random bytes drawn while sealing. */
    method Put(name: string, auth: string, info: KeyInfo, salt: seq<byte>, iv: seq<byte>)
      returns (r: Result<(), StoreError>)
      modifies this
      ensures (files, r) == Stored(env, old(files), name, auth, info, salt, iv)
    {
      var sData := env.codec.marshal(info);
      var keyjson := EncryptKey(env.prim, name, sData, auth, STANDARD_SCRYPT_N, STANDARD_SCRYPT_P, salt, iv);
      if keyjson.Err? {
        return Err(Failed(keyjson.error));
      }
      if name in files {
        return Ok(());
      }
      files := files[name := Sealing(Reloaded(keyjson.value))];
      return Ok(());
    }

    method Get(name: string, auth: string) returns (r: Result<KeyInfo, StoreError>)
      ensures r == Fetched(env, files, name, auth)
    {
      if name !in files {
        return Err(NoSuchFile);
      }
      if files[name].Unreadable? {
        return Err(Malformed);
      }
      var key := files[name].key;
      var secret := DecryptKeyV3(env.prim, key, auth);
      if secret.Err? {
        return Err(Failed(secret.error));
      }
      if key.address != name {
        return Err(NameMismatch);
      }
      var info := env.codec.unmarshal(secret.value);
      if info.None? {
        return Err(BadKeyInfo);
      }
      return Ok(info.value);
    }

    method Delete(name: string, auth: string) returns (r: Result<(), StoreError>)
      modifies this
      ensures (files, r) == Removed(env, old(files), name, auth)
    {
      var got := Get(name, auth);
      if got.Err? {
        return Err(got.error);
      }
      files := files - {name};
      return Ok(());
    }

    /** The names in the directory, in no particular order, each once. */
    method List() returns (keys: seq<string>)
      ensures (forall n :: n in keys <==> n in files) && |keys| == |files|
    {
      keys := [];
      var left := files.Keys;
      while left != {}
        invariant left <= files.Keys && |keys| + |left| == |files|
        invariant forall n :: n in keys <==> n in files.Keys - left
        decreases left
      {
        var f :| f in left;
        keys := keys + [f];
        left := left - {f};
      }
    }

    method Exist(name: string) returns (found: bool)
      ensures found <==> name in files
    {
      var l := List();
      var i := 0;
      while i < |l|
        invariant 0 <= i <= |l| && name !in l[..i]
      {
        if l[i] == name {
          return true;
        }
        i := i + 1;
      }
      assert l[..i] == l;
      return false;
    }
  }

  // What the operations mean, for all directories, with every check written out.

  /** Getting succeeds exactly on a readable file that opens, was sealed under its own name, and holds
      a key info. */
  lemma FetchedExactly(env: Env, files: Directory, name: string, auth: string, info: KeyInfo)
    ensures Fetched(env, files, name, auth) == Ok(info) <==>
      && name in files && files[name].Sealing?
      && files[name].key.address == name
      && Opened(env.prim, files[name].key, auth).Ok?
      && env.codec.unmarshal(Opened(env.prim, files[name].key, auth).value) == Some(info)
  {
    hide Opened;
  }

  /** Why getting fails: the first check that fails, in this order. */
  lemma FetchedErrors(env: Env, files: Directory, name: string, auth: string, e: StoreError)
    ensures Fetched(env, files, name, auth) == Err(e) <==>
      if name !in files then e == NoSuchFile
      else if files[name].Unreadable? then e == Malformed
      else
        match Opened(env.prim, files[name].key, auth)
        case Err(ke) => e == Failed(ke)
        case Ok(secret) =>
          if files[name].key.address != name then e == NameMismatch
          else env.codec.unmarshal(secret) == None && e == BadKeyInfo
  {
    hide Opened;
  }

  /** What a put reports and leaves behind: it succeeds exactly if sealing does, also for a stored name,
      whose file it leaves alone; no other file changes. */
  lemma StoredExactly(env: Env, files: Directory, name: string, auth: string, info: KeyInfo, salt: seq<byte>,
                      iv: seq<byte>)
    ensures var sealed := Sealed(env.prim, name, env.codec.marshal(info), auth, 262144, 1, salt, iv);
      var (files', r) := Stored(env, files, name, auth, info, salt, iv);
      && r == (match sealed case Ok(_) => Ok(()) case Err(e) => Err(Failed(e)))
      && (name in files || sealed.Err? ==> files' == files)
      && (name !in files && sealed.Ok? ==> name in files' && files'[name] == Sealing(Reloaded(sealed.value)))
      && files' - {name} == files - {name}
  {
    hide Sealed, Reloaded;
  }

  /** A delete reports what a get would, and removes the file exactly if that succeeds. */
  lemma RemovedExactly(env: Env, files: Directory, name: string, auth: string)
    ensures var got := Fetched(env, files, name, auth);
      var (files', r) := Removed(env, files, name, auth);
      && r == (match got case Ok(_) => Ok(()) case Err(e) => Err(e))
      && (name in files' <==> name in files && got.Err?)
      && files' - {name} == files - {name}
      && (got.Err? ==> files' == files)
  {
    hide Fetched;
    NoFileNoGet(env, files, name, auth);
  }

  lemma NoFileNoGet(env: Env, files: Directory, name: string, auth: string)
    ensures name !in files ==> Fetched(env, files, name, auth).Err?
  {
  }
}
