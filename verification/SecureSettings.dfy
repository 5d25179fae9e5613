/** The settings cache against the (partly encrypted) store it sits on. */
module SecureSettings {

  /** A QVariant: only byte arrays matter to the marker test. */
  datatype Variant = Invalid | ByteArray(bytes: string) | Text(text: string)

  datatype Json = Json(text: string)

  /** Cipher, serializer and JSON conversion, as functions. */
  datatype Codec = Codec(
    encrypt: string -> string, decrypt: string -> string,
    serialize: Variant -> string, deserialize: string -> Variant,
    toJson: Variant -> Json, fromJson: Json -> Variant)

  ghost predicate Laws(c: Codec)
  {
    && (forall x :: c.decrypt(c.encrypt(x)) == x)
    && (forall v :: c.deserialize(c.serialize(v)) == v)
    && (forall j :: !c.fromJson(j).ByteArray?)
  }

  /** The laws are consistent. */
  lemma LawsAreConsistent()
    ensures exists c: Codec :: Laws(c)
  {
    assert Laws(Tagging());
  }

  function Tagging(): Codec
  {
    Codec(x => x, x => x, Tag, Untag, v => Json(Tag(v)), (j: Json) => Text(j.text))
  }

  function Tag(v: Variant): string
  {
    match v
    case Invalid => ""
    case ByteArray(b) => "b" + b
    case Text(t) => "t" + t
  }

  function Untag(s: string): Variant
  {
    if s == "" then Invalid else if s[0] == 'b' then ByteArray(s[1..]) else Text(s[1..])
  }

  type Store = map<string, Variant>

  const MAGIC := "EncData"
  const UUID_KEY := "Conf/installationUuid"
  const ENCRYPTED_KEY := "Servers/serversList"

  predicate Marked(v: Variant) { v.ByteArray? && MAGIC <= v.bytes }

  /** What the store means for a key, read without any cache and with the encryption key at hand. */
  function Decode(c: Codec, v: Variant): Variant
  {
    if Marked(v) then c.deserialize(c.decrypt(v.bytes[|MAGIC|..])) else v
  }

  function ColdRead(c: Codec, s: Store, key: string, default: Variant): Variant
  {
    if key in s then Decode(c, s[key]) else default
  }

  /** Reading an entry with or without the encryption key: a marked one then reads as invalid. */
  function DecodeWith(c: Codec, v: Variant, keyOk: bool): Variant
  {
    if Marked(v) && !keyOk then Invalid else Decode(c, v)
  }

  /** What setValue writes. */
  function Encode(c: Codec, encryptIt: bool, v: Variant): Variant
  {
    if encryptIt then ByteArray(MAGIC + c.encrypt(c.serialize(v))) else v
  }

  lemma EncodeDecode(c: Codec, v: Variant)
    requires Laws(c)
    ensures Decode(c, Encode(c, true, v)) == v
  {
    assert (MAGIC + c.encrypt(c.serialize(v)))[|MAGIC|..] == c.encrypt(c.serialize(v));
  }

  /** Writing a value that is not a marked byte array, or encrypting it, is read back exactly. */
  lemma ReadAfterWrite(c: Codec, s: Store, key: string, encryptIt: bool, v: Variant, k: string, d: Variant)
    requires Laws(c) && (encryptIt || !Marked(v))
    ensures ColdRead(c, s[key := Encode(c, encryptIt, v)], k, d) == if k == key then v else ColdRead(c, s, k, d)
  {
    EncodeDecode(c, v);
  }

  /** QSettings::remove also removes every key below the given one; "" removes all. */
  predicate Below(k: string, key: string) { key == "" || key + "/" <= k }

  function Erased(s: Store, key: string): Store { map k | k in s && k != key && !Below(k, key) :: s[k] }

  predicate NeedsBackup(key: string) { key != UUID_KEY && ("Conf/" <= key || "Servers/" <= key) }

  class SecureQSettings {
    const c: Codec
    const encrypting: bool   // the platform encrypts at all
    var store: Store
    var cache: Store

    /** Every cached value is what a cold read would return. */
    ghost predicate Coherent()
      reads this
    {
      Laws(c) && forall k :: k in cache ==> k in store && cache[k] == Decode(c, store[k])
    }

    predicate Encrypts(key: string) { encrypting && key == ENCRYPTED_KEY }

    constructor (c: Codec, encrypting: bool, store: Store)
      requires Laws(c)
      ensures Coherent() && this.c == c && this.encrypting == encrypting && this.store == store && cache == map[]
    {
      this.c, this.encrypting, this.store, cache := c, encrypting, store, map[];
    }

    /** `keyOk`: the keychain delivers key and IV for this call. */
    method Value(key: string, default: Variant, keyOk: bool) returns (v: Variant)
      requires Coherent()
      modifies this`cache
      ensures Coherent() && old(cache).Keys <= cache.Keys <= old(cache).Keys + {key}
      ensures keyOk || key in old(cache) || (key in store ==> !Marked(store[key])) ==> v == ColdRead(c, store, key, default)
      ensures !keyOk && key !in old(cache) && key in store && Marked(store[key]) ==> v == Invalid && cache == old(cache)
    {
      if key in cache { return cache[key]; }
      if key !in store { return default; }
      v := store[key];
      if v.ByteArray? && |v.bytes| >= |MAGIC| && v.bytes[..|MAGIC|] == MAGIC {
        if !keyOk { return Invalid; }
        v := c.deserialize(c.decrypt(v.bytes[|MAGIC|..]));
      }
      cache := cache[key := v];
    }

    /** Coherence survives a write exactly unless a plain byte array carrying the marker is stored. */
    method SetValue(key: string, value: Variant, keyOk: bool)
      requires Coherent()
      modifies this
      ensures Encrypts(key) && !keyOk ==> unchanged(this)
      ensures !(Encrypts(key) && !keyOk) ==>
                store == old(store)[key := Encode(c, Encrypts(key), value)] && cache == old(cache)[key := value]
      ensures Coherent() <==> Encrypts(key) || Decode(c, value) == value
      ensures !Marked(value) ==> Coherent()
      ensures encrypting && key == "Servers/serversList" && keyOk ==>
                store[key].ByteArray? && store[key].bytes == "EncData" + c.encrypt(c.serialize(value))
      ensures !encrypting || key != "Servers/serversList" ==> key in store && store[key] == value
    {
      if encrypting && key == ENCRYPTED_KEY {
        if keyOk {
          EncodeDecode(c, value);
          store := store[key := ByteArray(MAGIC + c.encrypt(c.serialize(value)))];
        } else {
          return;
        }
      } else {
        store := store[key := value];
      }
      cache := cache[key := value];
      assert key in cache && cache[key] == value;
    }

    /** Coherence survives a removal exactly unless a key below the removed one is cached: the store
        drops the whole subtree, the cache only the key. */
    method Remove(key: string)
      requires Coherent()
      modifies this
      ensures store == Erased(old(store), key) && cache == old(cache) - {key}
      ensures Coherent() <==> forall k :: k in old(cache) && k != key ==> !Below(k, key)
      ensures forall d :: ColdRead(c, store, key, d) == d
      ensures forall k, d :: key + "/" <= k ==> ColdRead(c, store, k, d) == d
      ensures forall k, d :: key == "" ==> ColdRead(c, store, k, d) == d
      ensures forall k, d :: key != "" && k != key && !(key + "/" <= k) ==> ColdRead(c, store, k, d) == ColdRead(c, old(store), k, d)
    {
      store := Erased(store, key);
      cache := cache - {key};
      assert forall k :: k in old(cache) && k != key ==> k in cache;
    }

    method ClearSettings()
      requires Coherent()
      modifies this
      ensures Coherent() && store == map[] && cache == map[]
    {
      store, cache := map[], map[];
    }

    /** Every key under Conf/ and Servers/ except the installation id, converted to JSON. Without the
        encryption key a marked entry that was not read before is backed up as invalid. */
    method BackupAppConfig(keyOk: bool) returns (cfg: map<string, Json>)
      requires Coherent()
      modifies this`cache
      ensures Coherent() && cache.Keys >= old(cache).Keys
      ensures cfg.Keys == set k | k in store && NeedsBackup(k)
      ensures forall k :: k in cfg <==> k in store && k != "Conf/installationUuid" && ("Conf/" <= k || "Servers/" <= k)
      ensures forall k :: k in cfg ==> cfg[k] == c.toJson(DecodeWith(c, store[k], keyOk || k in old(cache)))
    {
      cfg := map[];
      var rest := store.Keys;
      while rest != {}
        invariant Coherent() && rest <= store.Keys
        invariant old(cache).Keys <= cache.Keys <= old(cache).Keys + (store.Keys - rest)
        invariant cfg.Keys == set k | k in store && k !in rest && NeedsBackup(k)
        invariant forall k :: k in cfg ==> cfg[k] == c.toJson(DecodeWith(c, store[k], keyOk || k in old(cache)))
        decreases rest
      {
        var key :| key in rest;
        if !NeedsBackup(key) { rest := rest - {key}; continue; }
        var v := Value(key, Invalid, keyOk);
        cfg := cfg[key := c.toJson(v)];
        rest := rest - {key};
      }
    }

    /** Whether a restore writes this key: not the installation id, and not an encrypted key while the
        encryption key is missing. */
    predicate Restores(key: string, keyOk: bool) { key != UUID_KEY && (keyOk || !Encrypts(key)) }

    /** Restored keys read back as converted; every other key, and the installation id, keep
        their value. */
    method RestoreAppConfig(cfg: map<string, Json>, keyOk: bool) returns (ok: bool)
      requires Coherent()
      modifies this
      ensures Coherent() && ok == (cfg != map[])
      ensures !ok ==> unchanged(this)
      ensures forall k, d :: ColdRead(c, store, k, d) ==
                if k in cfg && Restores(k, keyOk) then c.fromJson(cfg[k]) else ColdRead(c, old(store), k, d)
      ensures forall d :: ColdRead(c, store, "Conf/installationUuid", d) == ColdRead(c, old(store), "Conf/installationUuid", d)
      ensures forall k, d :: k in cfg && k != "Conf/installationUuid" && (keyOk || !encrypting || k != "Servers/serversList") ==>
                ColdRead(c, store, k, d) == c.fromJson(cfg[k])
    {
      if cfg == map[] { return false; }
      var rest := cfg.Keys;
      while rest != {}
        invariant Coherent() && rest <= cfg.Keys
        invariant forall k, d :: ColdRead(c, store, k, d) ==
                    if k in cfg && k !in rest && Restores(k, keyOk) then c.fromJson(cfg[k]) else ColdRead(c, old(store), k, d)
        decreases rest
      {
        var key :| key in rest;
        rest := rest - {key};
        if key == UUID_KEY { continue; }
        ghost var before, v := store, c.fromJson(cfg[key]);
        SetValue(key, c.fromJson(cfg[key]), keyOk);
        forall k, d ensures ColdRead(c, store, k, d) == if k == key && Restores(key, keyOk) then v else ColdRead(c, before, k, d) {
          ReadAfterWrite(c, before, key, Encrypts(key), v, k, d);
        }
      }
      return true;
    }
  }

  datatype Op =
    | Read(key: string, default: Variant, keyOk: bool)
    | Write(key: string, value: Variant, keyOk: bool)
    | Delete(key: string)
    | Clear

  /** No key of the set lies below another. */
  ghost predicate Flat(keys: set<string>) { forall a, b :: a in keys && b in keys && a != b ==> !Below(a, b) }

  /** Operations over flat keys that never write a marker-prefixed plain byte array. */
  ghost predicate Harmless(ops: seq<Op>, keys: set<string>)
  {
    forall i :: 0 <= i < |ops| ==> (!ops[i].Clear? ==> ops[i].key in keys) && (ops[i].Write? ==> !Marked(ops[i].value))
  }

  /** What a history means for one key. */
  datatype Meaning = Untouched | Gone | Holds(value: Variant)

  /** The last operation that concerned the key decides: a write (unless it had to be encrypted and
      the encryption key was missing), a removal of the key or of a parent, or a clear. */
  function Latest(ops: seq<Op>, key: string, encrypting: bool): Meaning
  {
    if ops == [] then Untouched
    else
      var op, before := ops[|ops| - 1], Latest(ops[..|ops| - 1], key, encrypting);
      match op
      case Read(_, _, _) => before
      case Write(k, v, keyOk) =>
        if k == key && (keyOk || !encrypting || key != "Servers/serversList") then Holds(v) else before
      case Delete(k) => if k == key || k == "" || k + "/" <= key then Gone else before
      case Clear => Gone
  }

  /** What a read returns for a meaning, given the store the history started from. */
  ghost function Meant(c: Codec, s: Store, m: Meaning, key: string, default: Variant): Variant
  {
    match m
    case Untouched => ColdRead(c, s, key, default)
    case Gone => default
    case Holds(v) => v
  }

  /** Over every such sequence the cache stays coherent, so a last cached read is a cold read; and it
      returns the last value written to that key since its last removal or clear, the default if there
      is none, and what the store held at first if the history never concerned the key. */
  method Replay(s: SecureQSettings, ops: seq<Op>, ghost keys: set<string>, key: string, default: Variant) returns (v: Variant)
    requires s.Coherent() && s.cache.Keys <= keys && Flat(keys) && Harmless(ops, keys)
    modifies s
    ensures s.Coherent() && v == ColdRead(s.c, s.store, key, default)
    ensures v == Meant(s.c, old(s.store), Latest(ops, key, s.encrypting), key, default)
  {
    for i := 0 to |ops|
      invariant s.Coherent() && s.cache.Keys <= keys
      invariant forall k, d :: ColdRead(s.c, s.store, k, d) == Meant(s.c, old(s.store), Latest(ops[..i], k, s.encrypting), k, d)
    {
      assert ops[..i + 1] == ops[..i] + [ops[i]];
      ghost var before := s.store;
      Apply(s, ops[i]);
      forall k, d ensures ColdRead(s.c, s.store, k, d) == Meant(s.c, old(s.store), Latest(ops[..i + 1], k, s.encrypting), k, d) {
        MeantNext(s.c, old(s.store), before, ops[..i], ops[i], k, d, s.encrypting);
      }
    }
    assert ops[..|ops|] == ops;
    v := s.Value(key, default, true);
  }

  /** Meanings compose: the next operation decides, or what was meant before it. */
  lemma MeantNext(c: Codec, s0: Store, s1: Store, ops: seq<Op>, op: Op, key: string, d: Variant, encrypting: bool)
    requires ColdRead(c, s1, key, d) == Meant(c, s0, Latest(ops, key, encrypting), key, d)
    ensures Meant(c, s1, Latest([op], key, encrypting), key, d) == Meant(c, s0, Latest(ops + [op], key, encrypting), key, d)
  {
    assert [op][..0] == [] && (ops + [op])[..|ops|] == ops;
  }

  /** One operation of a history. */
  method Apply(s: SecureQSettings, op: Op)
    requires s.Coherent() && (op.Write? ==> !Marked(op.value))
    requires op.Delete? ==> forall k :: k in s.cache && k != op.key ==> !Below(k, op.key)
    modifies s
    ensures s.Coherent() && s.cache.Keys <= old(s.cache).Keys + (if op.Clear? then {} else {op.key})
    ensures forall k, d :: ColdRead(s.c, s.store, k, d) ==
              Meant(s.c, old(s.store), Latest([op], k, s.encrypting), k, d)
  {
    assert [op][..0] == [];
    match op
    case Read(k, d, keyOk) => var _ := s.Value(k, d, keyOk);
    case Write(k, value, keyOk) =>
      ghost var before := s.store;
      s.SetValue(k, value, keyOk);
      forall k', d ensures keyOk || !s.Encrypts(k) ==>
                             ColdRead(s.c, s.store, k', d) == if k' == k then value else ColdRead(s.c, before, k', d)
      {
        ReadAfterWrite(s.c, before, k, s.Encrypts(k), value, k', d);
      }
    case Delete(k) => s.Remove(k);
    case Clear => s.ClearSettings();
  }

  /** Restoring a backup on any two installations, each with or without its encryption key: which
      keys are written, with which value, and that nothing else changes. */
  method Migrate(from: SecureQSettings, to: SecureQSettings, fromKey: bool, toKey: bool) returns (ok: bool)
    requires from != to && from.Coherent() && to.Coherent()
    modifies from`cache, to
    ensures from.Coherent() && to.Coherent()
    ensures ok <==> exists k :: k in from.store && NeedsBackup(k)
    ensures forall k, d :: ColdRead(to.c, to.store, k, d) ==
              if k in from.store && NeedsBackup(k) && to.Restores(k, toKey)
              then to.c.fromJson(from.c.toJson(DecodeWith(from.c, from.store[k], fromKey || k in old(from.cache))))
              else ColdRead(to.c, old(to.store), k, d)
  {
    var cfg := from.BackupAppConfig(fromKey);
    assert cfg != map[] <==> exists k :: k in cfg;
    ok := to.RestoreAppConfig(cfg, toKey);
  }

  /** A migration carries every server list over, whatever the target held before, exactly when the
      source can decrypt and the target can encrypt. `v` is the source's uncached entry, `was` the
      target's reading before the restore; JSON keeps texts. */
  lemma CarriedIff(c: Codec, fromKey: bool, toKey: bool)
    requires Laws(c) && forall t :: c.fromJson(c.toJson(Text(t))) == Text(t)
    ensures (forall v, was :: Decode(c, v).Text? ==> Carried(c, v, was, fromKey, toKey)) <==> fromKey && toKey
  {
    if !(fromKey && toKey) {
      var list := if c.fromJson(c.toJson(Invalid)) == Text("a") then Text("b") else Text("a");
      EncodeDecode(c, list);
      assert MAGIC <= Encode(c, true, list).bytes;
      assert !Carried(c, Encode(c, true, list), Invalid, fromKey, toKey);
    }
  }

  /** The server list, encrypted on both sides, reads on the target as it did on the source. */
  predicate Carried(c: Codec, v: Variant, was: Variant, fromKey: bool, toKey: bool)
  {
    (if toKey then c.fromJson(c.toJson(DecodeWith(c, v, fromKey))) else was) == Decode(c, v)
  }
}
