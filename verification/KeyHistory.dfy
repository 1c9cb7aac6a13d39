/** Whole histories of the key store, opened on any directory: which put a later get reads. */
module KeyHistory {
  import opened Bytes
  import opened Wrappers
  import opened Doubles
  import opened Envelope
  import opened KeyStore

  datatype Op =
    | Put(name: string, auth: string, info: KeyInfo, salt: seq<byte>, iv: seq<byte>)
    | Get(name: string, auth: string)
    | Delete(name: string, auth: string)

  /** The directory after one operation, and whether it succeeded. */
  function Apply(env: Env, files: Directory, op: Op): (Directory, bool) {
    match op
    case Put(name, auth, info, salt, iv) =>
      var (files', r) := Stored(env, files, name, auth, info, salt, iv);
      (files', r.Ok?)
    case Get(name, auth) => (files, Fetched(env, files, name, auth).Ok?)
    case Delete(name, auth) =>
      var (files', r) := Removed(env, files, name, auth);
      (files', r.Ok?)
  }

  /** A history: the directory that the store is opened on, and the operations on it. */
  datatype History = History(start: Directory, ops: seq<Op>)
  {
    /** The directory after the first k operations. */
    function After(env: Env, k: nat): Directory
      requires k <= |ops|
    {
      if k == 0 then start else Apply(env, After(env, k - 1), ops[k - 1]).0
    }

    predicate Succeeds(env: Env, k: nat)
      requires k < |ops|
    {
      Apply(env, After(env, k), ops[k]).1
    }

    predicate PutsAt(env: Env, k: nat, name: string)
      requires k < |ops|
    {
      ops[k].Put? && ops[k].name == name && Succeeds(env, k)
    }

    predicate DeletesAt(env: Env, k: nat, name: string)
      requires k < |ops|
    {
      ops[k].Delete? && ops[k].name == name && Succeeds(env, k)
    }

    predicate DeletedWithin(env: Env, i: nat, k: nat, name: string)
      requires k <= |ops|
    {
      exists d :: i <= d < k && DeletesAt(env, d, name)
    }
  }

  /** The name was in the directory at the start and has not been deleted, as of step k. */
  predicate Kept(env: Env, h: History, k: nat, name: string)
    requires k <= |h.ops|
  {
    name in h.start && !h.DeletedWithin(env, 0, k, name)
  }

  /** Operation i is the first successful put of the name since it was last absent: nothing before it,
      neither a put nor the directory at the start, has left a file that was not deleted. */
  ghost predicate FirstPut(env: Env, h: History, k: nat, name: string, i: nat)
    requires k <= |h.ops|
  {
    && i < k
    && h.PutsAt(env, i, name)
    && !h.DeletedWithin(env, i, k, name)
    && !Kept(env, h, i, name)
    && forall j :: 0 <= j < i && h.PutsAt(env, j, name) ==> h.DeletedWithin(env, j, i, name)
  }

  /** Where the file of a name comes from. */
  datatype Origin = Absent | AtStart | PutAt(i: nat)

  /** The origin after k operations, found by running through the history. */
  function OriginOf(env: Env, h: History, k: nat, name: string): (o: Origin)
    requires k <= |h.ops|
    ensures o.PutAt? ==> o.i < k && h.ops[o.i].Put?
  {
    if k == 0 then (if name in h.start then AtStart else Absent)
    else if h.DeletesAt(env, k - 1, name) then Absent
    else if h.PutsAt(env, k - 1, name) && OriginOf(env, h, k - 1, name).Absent? then PutAt(k - 1)
    else OriginOf(env, h, k - 1, name)
  }

  lemma NotBoth(env: Env, h: History, k: nat, name: string)
    requires k < |h.ops|
    ensures !h.PutsAt(env, k, name) || !h.DeletesAt(env, k, name)
  {
  }

  lemma DeletedStep(env: Env, h: History, i: nat, k: nat, name: string)
    requires i <= k < |h.ops|
    ensures h.DeletedWithin(env, i, k + 1, name) <==> h.DeletedWithin(env, i, k, name) || h.DeletesAt(env, k, name)
  {
    hide History.DeletesAt;
  }

  lemma DeletedSteps(env: Env, h: History, k: nat, name: string)
    requires k < |h.ops|
    ensures !h.DeletedWithin(env, k, k, name)
    ensures forall j: nat :: j <= k ==>
      (h.DeletedWithin(env, j, k + 1, name) <==> h.DeletedWithin(env, j, k, name) || h.DeletesAt(env, k, name))
  {
    forall j: nat | j <= k
      ensures h.DeletedWithin(env, j, k + 1, name) <==> h.DeletedWithin(env, j, k, name) || h.DeletesAt(env, k, name)
    {
      DeletedStep(env, h, j, k, name);
    }
  }

  lemma {:induction false} OriginDescribed(env: Env, h: History, k: nat, name: string)
    requires k <= |h.ops|
    ensures match OriginOf(env, h, k, name)
      case PutAt(i) => FirstPut(env, h, k, name, i)
      case AtStart => Kept(env, h, k, name)
      case Absent =>
        && !Kept(env, h, k, name)
        && forall j :: 0 <= j < k && h.PutsAt(env, j, name) ==> h.DeletedWithin(env, j, k, name)
  {
    if k > 0 {
      hide History.PutsAt, History.DeletesAt, History.DeletedWithin;
      OriginDescribed(env, h, k - 1, name);
      NotBoth(env, h, k - 1, name);
      DeletedSteps(env, h, k - 1, name);
    }
  }

  /** The origin found by running through the history is the one singled out by its description. */
  lemma OriginExactly(env: Env, h: History, k: nat, name: string, i: nat)
    requires k <= |h.ops|
    ensures OriginOf(env, h, k, name) == PutAt(i) <==> FirstPut(env, h, k, name, i)
    ensures OriginOf(env, h, k, name) == AtStart <==> Kept(env, h, k, name)
  {
    OriginDescribed(env, h, k, name);
    hide History.PutsAt, History.DeletesAt, OriginOf;
  }

  function FileOf(env: Env, op: Op): File
    requires op.Put?
  {
    match SealedInfo(env, op.name, op.auth, op.info, op.salt, op.iv)
    case Err(_) => Unreadable
    case Ok(file) => Sealing(Reloaded(file))
  }

  /** The directory holds exactly the names that have an origin, each with the file that it left. */
  lemma {:induction false} DirectoryFollowsOrigins(env: Env, h: History, k: nat, name: string)
    requires k <= |h.ops|
    ensures var files := h.After(env, k);
      match OriginOf(env, h, k, name)
      case PutAt(i) => name in files && files[name] == FileOf(env, h.ops[i])
      case AtStart => name in files && name in h.start && files[name] == h.start[name]
      case Absent => name !in files
  {
    hide Fetched, SealedInfo, Reloaded;
    if k > 0 {
      DirectoryFollowsOrigins(env, h, k - 1, name);
    }
  }

  lemma PutFileOpens(env: Env, op: Op, files: Directory)
    requires env.codec.Valid() && op.Put? && SealedInfo(env, op.name, op.auth, op.info, op.salt, op.iv).Ok?
    requires op.name in files && files[op.name] == FileOf(env, op)
    ensures Fetched(env, files, op.name, op.auth) == Ok(op.info)
  {
    hide Sealed, Opened, Reloaded, IsDouble;
    SmallIsDouble(STANDARD_SCRYPT_N);
    SmallIsDouble(STANDARD_SCRYPT_P);
    SealOpen(env.prim, op.name, env.codec.marshal(op.info), op.auth, STANDARD_SCRYPT_N, STANDARD_SCRYPT_P,
             op.salt, op.iv);
    SealedAddress(env, op);
  }

  lemma SealedAddress(env: Env, op: Op)
    requires op.Put? && SealedInfo(env, op.name, op.auth, op.info, op.salt, op.iv).Ok?
    ensures Reloaded(SealedInfo(env, op.name, op.auth, op.info, op.salt, op.iv).value).address == op.name
  {
  }

  /** Main theorem: after any history on any directory, the password of the first put of a name since the
      name was last absent reads back what that put stored. */
  lemma GetReadsFirstPut(env: Env, h: History, k: nat, name: string, i: nat)
    requires env.codec.Valid() && k <= |h.ops| && FirstPut(env, h, k, name, i)
    ensures Fetched(env, h.After(env, k), name, h.ops[i].auth) == Ok(h.ops[i].info)
  {
    hide History.After, FileOf, SealedInfo, OriginOf, History.Succeeds;
    DirectoryFollowsOrigins(env, h, k, name);
    OriginExactly(env, h, k, name, i);
    SucceededPutSeals(env, h, i, name);
    PutFileOpens(env, h.ops[i], h.After(env, k));
  }

  lemma SameFileSameGet(env: Env, files: Directory, files': Directory, name: string, auth: string)
    requires name in files && name in files' && files[name] == files'[name]
    ensures Fetched(env, files, name, auth) == Fetched(env, files', name, auth)
  {
  }

  /** A file that lay in the directory at the start stays as it was until it is deleted, which takes a
      password that opened it at the start; until then every get answers as it did at the start. */
  lemma KeptFile(env: Env, h: History, k: nat, name: string, auth: string)
    requires k <= |h.ops| && Kept(env, h, k, name)
    ensures name in h.After(env, k) && h.After(env, k)[name] == h.start[name]
    ensures Fetched(env, h.After(env, k), name, auth) == Fetched(env, h.start, name, auth)
    ensures k < |h.ops| && h.ops[k] == Delete(name, auth) ==>
      (Kept(env, h, k + 1, name) <==> Fetched(env, h.start, name, auth).Err?)
  {
    DirectoryFollowsOrigins(env, h, k, name);
    OriginExactly(env, h, k, name, 0);
    hide OriginOf, History.After, Fetched, FirstPut;
    SameFileSameGet(env, h.start, h.After(env, k), name, auth);
    if k < |h.ops| {
      DeletedStep(env, h, 0, k, name);
    }
  }

  /** A name is in the directory if and only if it was there at the start and is kept, or has such a put. */
  lemma PresentIffPut(env: Env, h: History, k: nat, name: string)
    requires k <= |h.ops|
    ensures name in h.After(env, k) <==> Kept(env, h, k, name) || exists i: nat :: FirstPut(env, h, k, name, i)
  {
    hide FirstPut, Kept, FileOf, History.After, OriginOf;
    DirectoryFollowsOrigins(env, h, k, name);
    forall i: nat
      ensures OriginOf(env, h, k, name) == PutAt(i) <==> FirstPut(env, h, k, name, i)
      ensures OriginOf(env, h, k, name) == AtStart <==> Kept(env, h, k, name)
    {
      OriginExactly(env, h, k, name, i);
    }
    OriginExactly(env, h, k, name, 0);
  }

  lemma SucceededPutSeals(env: Env, h: History, i: nat, name: string)
    requires i < |h.ops| && h.PutsAt(env, i, name)
    ensures SealedInfo(env, name, h.ops[i].auth, h.ops[i].info, h.ops[i].salt, h.ops[i].iv).Ok?
  {
  }

  /** A later put of a name whose file has an origin changes nothing at all. */
  lemma LaterPutsChangeNothing(env: Env, h: History, k: nat, i: nat)
    requires k < |h.ops| && h.ops[k].Put?
    requires Kept(env, h, k, h.ops[k].name) || FirstPut(env, h, k, h.ops[k].name, i)
    ensures h.After(env, k + 1) == h.After(env, k)
  {
    DirectoryFollowsOrigins(env, h, k, h.ops[k].name);
    OriginExactly(env, h, k, h.ops[k].name, i);
    hide FirstPut, Kept, SealedInfo, Reloaded, OriginOf;
  }

  /** The password of the put that stored a name always deletes it, and then it is absent. */
  lemma OwnerCanDelete(env: Env, h: History, k: nat, i: nat)
    requires env.codec.Valid() && k < |h.ops| && h.ops[k].Delete?
    requires FirstPut(env, h, k, h.ops[k].name, i) && h.ops[i].auth == h.ops[k].auth
    ensures h.Succeeds(env, k) && h.ops[k].name !in h.After(env, k + 1)
  {
    hide FirstPut, SealedInfo, Reloaded, Fetched;
    GetReadsFirstPut(env, h, k, h.ops[k].name, i);
  }
}
