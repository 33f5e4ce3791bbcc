/** Resolution of the configured keys into a keyset, and its hot reload. File contents are given
    already trimmed; a Go map of keys is walked in an arbitrary order. */
module KeyConfig {
  import opened Wrappers
  import opened Collections
  import opened Base64
  import opened Aead
  import opened Envelope
  import opened Keyring

  datatype KeySource = KeySource(value: string, file: string)
  datatype Pointer = Pointer(name: string, file: string)
  datatype EncConfig = EncConfig(
    keys: map<string, KeySource>,
    keysFolder: string,
    secretKey: Pointer,
    optionKey: Pointer)

  datatype FolderEntry = FolderEntry(name: string, regular: bool, content: Option<string>)
  /** What the process can read: files by path, and the listing of the keys folder (None: unreadable). */
  datatype Disk = Disk(files: map<string, string>, folder: Option<seq<FolderEntry>>)

  datatype Registry = Registry(byID: map<string, string>, byLabel: map<string, string>)

  const EMPTY := Registry(map[], map[])

  /** validateAccessKeyEncryption: empty, or base64 of 16, 24 or 32 bytes. */
  predicate ValidKey(material: string) {
    material == "" || RawKey(material).Some?
  }

  function AddLabeled(c: Cipher, reg: Registry, name: string, material: string): Option<Registry> {
    if material == "" then Some(reg)
    else if !ValidKey(material) then None
    else Some(Registry(reg.byID[KeyID(c, material) := material], reg.byLabel[name := material]))
  }

  function ResolveKeySource(disk: Disk, src: KeySource): Option<string> {
    if src.value != "" && src.file != "" then None
    else if src.file != "" then (if src.file in disk.files then Some(disk.files[src.file]) else None)
    else Some(src.value)
  }

  function LoadInline(c: Cipher, disk: Disk, keys: map<string, KeySource>, order: seq<string>, reg: Registry)
    : Option<Registry>
    requires forall l | l in order :: l in keys
  {
    if order == [] then Some(reg)
    else
      var reg' :- LoadInline(c, disk, keys, order[..|order| - 1], reg);
      var name := order[|order| - 1];
      var material :- ResolveKeySource(disk, keys[name]);
      AddLabeled(c, reg', name, material)
  }

  function LoadFolder(c: Cipher, entries: seq<FolderEntry>, reg: Registry): Option<Registry> {
    if entries == [] then Some(reg)
    else
      var reg' :- LoadFolder(c, entries[..|entries| - 1], reg);
      var e := entries[|entries| - 1];
      if (e.name != "" && e.name[0] == '.') || !e.regular then Some(reg')
      else
        var material :- e.content;
        AddLabeled(c, reg', e.name, material)
  }

  function LoadConfigured(c: Cipher, enc: Option<EncConfig>, disk: Disk, order: seq<string>): Option<Registry>
    requires enc.Some? ==> forall l | l in order :: l in enc.value.keys
  {
    if enc == None then Some(EMPTY)
    else
      var reg :- LoadInline(c, disk, enc.value.keys, order, EMPTY);
      if enc.value.keysFolder == "" then Some(reg)
      else
        var entries :- disk.folder;
        LoadFolder(c, entries, reg)
  }

  /** An active label wins, then an active filename, then the flat fallback. */
  function ResolveActiveKey(c: Cipher, disk: Disk, folder: string, flat: string, reg: Registry, ptr: Pointer)
    : Option<(Registry, string)>
  {
    if ptr.name != "" then
      if ptr.name in reg.byLabel then Some((reg, reg.byLabel[ptr.name])) else None
    else if ptr.file != "" then
      if ptr.file in reg.byLabel then Some((reg, reg.byLabel[ptr.file]))
      else
        var path := if ptr.file[0] == '/' || folder == "" then ptr.file else folder + "/" + ptr.file;
        if path !in disk.files then None
        else
          var reg' :- AddLabeled(c, reg, ptr.file, disk.files[path]);
          Some((reg', disk.files[path]))
    else Some((reg, flat))
  }

  const NO_POINTER := Pointer("", "")

  function Resolve(
    c: Cipher, enc: Option<EncConfig>, disk: Disk, order: seq<string>, flatAccess: string, flatOption: string)
    : Option<Keyset>
    requires enc.Some? ==> forall l | l in order :: l in enc.value.keys
  {
    var reg :- LoadConfigured(c, enc, disk, order);
    var reg :- AddLabeled(c, reg, "", flatAccess);
    var reg :- AddLabeled(c, reg, "", flatOption);
    var folder := if enc == None then "" else enc.value.keysFolder;
    var secretKey := if enc == None then NO_POINTER else enc.value.secretKey;
    var optionKey := if enc == None then NO_POINTER else enc.value.optionKey;
    var (reg, access) :- ResolveActiveKey(c, disk, folder, flatAccess, reg, secretKey);
    var (reg, option) :- ResolveActiveKey(c, disk, folder, flatOption, reg, optionKey);
    Some(Keyset(reg.byID, KeyID(c, access), KeyID(c, option), flatAccess, flatOption))
  }

  // --- the imperative resolver ---

  /** The two maps that the addLabeled closure fills. */
  class Resolver {
    var byID: map<string, string>
    var byLabel: map<string, string>

    constructor ()
      ensures Registered() == EMPTY
    {
      byID, byLabel := map[], map[];
    }

    function Registered(): Registry
      reads this
    {
      Registry(byID, byLabel)
    }

    method Add(c: Cipher, name: string, material: string) returns (ok: bool)
      modifies this
      ensures ok <==> AddLabeled(c, old(Registered()), name, material).Some?
      ensures Registered() == if ok then AddLabeled(c, old(Registered()), name, material).value else old(Registered())
    {
      if material == "" {
        return true;
      }
      if !ValidKey(material) {
        return false;
      }
      byID := byID[KeyID(c, material) := material];
      byLabel := byLabel[name := material];
      ok := true;
    }

    method AddInline(c: Cipher, disk: Disk, keys: map<string, KeySource>, order: seq<string>) returns (ok: bool)
      requires forall l | l in order :: l in keys
      modifies this
      ensures ok <==> LoadInline(c, disk, keys, order, old(Registered())).Some?
      ensures ok ==> Registered() == LoadInline(c, disk, keys, order, old(Registered())).value
    {
      ghost var start := Registered();
      for i := 0 to |order|
        invariant LoadInline(c, disk, keys, order[..i], start) == Some(Registered())
      {
        assert order[..i + 1][..i] == order[..i];
        var src := ResolveKeySource(disk, keys[order[i]]);
        if src == None {
          LoadInlineStops(c, disk, keys, order, i + 1, start);
          return false;
        }
        ok := Add(c, order[i], src.value);
        if !ok {
          LoadInlineStops(c, disk, keys, order, i + 1, start);
          return;
        }
      }
      assert order[..|order|] == order;
      ok := true;
    }

    method AddFolder(c: Cipher, entries: seq<FolderEntry>) returns (ok: bool)
      modifies this
      ensures ok <==> LoadFolder(c, entries, old(Registered())).Some?
      ensures ok ==> Registered() == LoadFolder(c, entries, old(Registered())).value
    {
      ghost var start := Registered();
      for i := 0 to |entries|
        invariant LoadFolder(c, entries[..i], start) == Some(Registered())
      {
        assert entries[..i + 1][..i] == entries[..i];
        var e := entries[i];
        if (e.name != "" && e.name[0] == '.') || !e.regular {
          continue;
        }
        if e.content == None {
          LoadFolderStops(c, entries, i + 1, start);
          return false;
        }
        ok := Add(c, e.name, e.content.value);
        if !ok {
          LoadFolderStops(c, entries, i + 1, start);
          return;
        }
      }
      assert entries[..|entries|] == entries;
      ok := true;
    }

    method AddConfigured(c: Cipher, enc: Option<EncConfig>, disk: Disk, order: seq<string>) returns (ok: bool)
      requires Registered() == EMPTY
      requires enc.Some? ==> forall l | l in order :: l in enc.value.keys
      modifies this
      ensures ok <==> LoadConfigured(c, enc, disk, order).Some?
      ensures ok ==> Registered() == LoadConfigured(c, enc, disk, order).value
    {
      if enc == None {
        return true;
      }
      ok := AddInline(c, disk, enc.value.keys, order);
      if ok && enc.value.keysFolder != "" {
        if disk.folder == None {
          return false;
        }
        ok := AddFolder(c, disk.folder.value);
      }
    }

    method Active(c: Cipher, disk: Disk, folder: string, flat: string, ptr: Pointer) returns (r: Option<string>)
      modifies this
      ensures r.Some? <==> ResolveActiveKey(c, disk, folder, flat, old(Registered()), ptr).Some?
      ensures r.Some? ==>
                ResolveActiveKey(c, disk, folder, flat, old(Registered()), ptr) == Some((Registered(), r.value))
    {
      if ptr.name != "" {
        return if ptr.name in byLabel then Some(byLabel[ptr.name]) else None;
      }
      if ptr.file == "" {
        return Some(flat);
      }
      if ptr.file in byLabel {
        return Some(byLabel[ptr.file]);
      }
      var path := if ptr.file[0] == '/' || folder == "" then ptr.file else folder + "/" + ptr.file;
      if path !in disk.files {
        return None;
      }
      var ok := Add(c, ptr.file, disk.files[path]);
      r := if ok then Some(disk.files[path]) else None;
    }
  }

  lemma {:induction false} LoadInlineStops(
    c: Cipher, disk: Disk, keys: map<string, KeySource>, order: seq<string>, n: nat, reg: Registry)
    requires forall l | l in order :: l in keys
    requires n <= |order| && LoadInline(c, disk, keys, order[..n], reg) == None
    ensures LoadInline(c, disk, keys, order, reg) == None
    decreases |order| - n
  {
    if n == |order| {
      assert order[..n] == order;
    } else {
      assert order[..n + 1][..n] == order[..n];
      LoadInlineStops(c, disk, keys, order, n + 1, reg);
    }
  }

  lemma {:induction false} LoadFolderStops(c: Cipher, entries: seq<FolderEntry>, n: nat, reg: Registry)
    requires n <= |entries| && LoadFolder(c, entries[..n], reg) == None
    ensures LoadFolder(c, entries, reg) == None
    decreases |entries| - n
  {
    if n == |entries| {
      assert entries[..n] == entries;
    } else {
      assert entries[..n + 1][..n] == entries[..n];
      LoadFolderStops(c, entries, n + 1, reg);
    }
  }

  method WalkOrder(keys: map<string, KeySource>) returns (order: seq<string>)
    ensures Enumerates(order, keys)
  {
    order := [];
    var labels := keys.Keys;
    while labels != {}
      invariant labels <= keys.Keys && Distinct(order)
      invariant forall l :: l in order <==> l in keys && l !in labels
    {
      var l :| l in labels;
      order := order + [l];
      labels := labels - {l};
    }
  }

  /** resolveEncryptionKeysFrom; `order` is the order in which the keys map happened to be walked. */
  method ResolveEncryptionKeysFrom(
    c: Cipher, enc: Option<EncConfig>, disk: Disk, flatAccess: string, flatOption: string)
    returns (r: Option<Keyset>, order: seq<string>)
    ensures enc.Some? ==> Enumerates(order, enc.value.keys)
    ensures r == Resolve(c, enc, disk, order, flatAccess, flatOption)
  {
    order := [];
    if enc.Some? {
      order := WalkOrder(enc.value.keys);
    }
    r := None;
    var reg := new Resolver();
    var ok := reg.AddConfigured(c, enc, disk, order);
    if !ok { return; }
    ok := reg.Add(c, "", flatAccess);
    if !ok { return; }
    ok := reg.Add(c, "", flatOption);
    if !ok { return; }
    var folder := if enc == None then "" else enc.value.keysFolder;
    var access := reg.Active(c, disk, folder, flatAccess, if enc == None then NO_POINTER else enc.value.secretKey);
    if access == None { return; }
    var option := reg.Active(c, disk, folder, flatOption, if enc == None then NO_POINTER else enc.value.optionKey);
    if option == None { return; }
    r := Some(Keyset(reg.byID, KeyID(c, access.value), KeyID(c, option.value), flatAccess, flatOption));
  }

  // --- what resolution guarantees ---

  /** The ids are the ids of the materials, and every labelled key is registered. */
  ghost predicate RegistryOk(c: Cipher, reg: Registry) {
    && (forall id | id in reg.byID :: RawKey(reg.byID[id]).Some? && KeyID(c, reg.byID[id]) == id)
    && (forall l | l in reg.byLabel :: KeyID(c, reg.byLabel[l]) in reg.byID)
  }

  /** Registration only ever adds ids. */
  ghost predicate Grows(c: Cipher, reg: Registry, reg': Registry) {
    RegistryOk(c, reg') && reg.byID.Keys <= reg'.byID.Keys
  }

  lemma AddGrows(c: Cipher, reg: Registry, name: string, material: string)
    requires RegistryOk(c, reg) && AddLabeled(c, reg, name, material).Some?
    ensures Grows(c, reg, AddLabeled(c, reg, name, material).value)
    ensures material != "" ==>
              RawKey(material).Some? && KeyID(c, material) in AddLabeled(c, reg, name, material).value.byID
  {
  }

  lemma {:induction false} InlineGrows(
    c: Cipher, disk: Disk, keys: map<string, KeySource>, order: seq<string>, reg: Registry)
    requires forall l | l in order :: l in keys
    requires RegistryOk(c, reg) && LoadInline(c, disk, keys, order, reg).Some?
    ensures Grows(c, reg, LoadInline(c, disk, keys, order, reg).value)
  {
    if order != [] {
      var init, name := order[..|order| - 1], order[|order| - 1];
      InlineGrows(c, disk, keys, init, reg);
      AddGrows(c, LoadInline(c, disk, keys, init, reg).value, name, ResolveKeySource(disk, keys[name]).value);
    }
  }

  lemma {:induction false} FolderGrows(c: Cipher, entries: seq<FolderEntry>, reg: Registry)
    requires RegistryOk(c, reg) && LoadFolder(c, entries, reg).Some?
    ensures Grows(c, reg, LoadFolder(c, entries, reg).value)
  {
    if entries != [] {
      var init, e := entries[..|entries| - 1], entries[|entries| - 1];
      FolderGrows(c, init, reg);
      var reg' := LoadFolder(c, init, reg).value;
      if !((e.name != "" && e.name[0] == '.') || !e.regular) {
        AddGrows(c, reg', e.name, e.content.value);
      }
    }
  }

  lemma ActiveGrows(c: Cipher, disk: Disk, folder: string, flat: string, reg: Registry, ptr: Pointer)
    requires RegistryOk(c, reg) && ResolveActiveKey(c, disk, folder, flat, reg, ptr).Some?
    requires flat != "" ==> KeyID(c, flat) in reg.byID
    ensures var (reg', m) := ResolveActiveKey(c, disk, folder, flat, reg, ptr).value;
            Grows(c, reg, reg') && (KeyID(c, m) == "" || KeyID(c, m) in reg'.byID)
  {
    var (reg', m) := ResolveActiveKey(c, disk, folder, flat, reg, ptr).value;
    if reg' != reg {
      AddGrows(c, reg, ptr.file, m);
    } else if m in reg.byLabel.Values {
      assert KeyID(c, m) in reg.byID;
    } else if m != "" && ptr.name == "" && ptr.file != "" && ptr.file !in reg.byLabel {
      AddGrows(c, reg, ptr.file, m);
    }
  }

  /** Every resolved keyset is well-formed: ids fit their keys, active ids are empty or registered,
      and the flat keys are registered. */
  lemma ResolvedIsWellFormed(
    c: Cipher, enc: Option<EncConfig>, disk: Disk, order: seq<string>, flatAccess: string, flatOption: string)
    requires enc.Some? ==> forall l | l in order :: l in enc.value.keys
    requires Resolve(c, enc, disk, order, flatAccess, flatOption).Some?
    ensures WellFormed(c, Resolve(c, enc, disk, order, flatAccess, flatOption).value)
  {
    var reg0 := LoadConfigured(c, enc, disk, order).value;
    assert RegistryOk(c, EMPTY);
    if enc.Some? {
      InlineGrows(c, disk, enc.value.keys, order, EMPTY);
      if enc.value.keysFolder != "" {
        FolderGrows(c, disk.folder.value, LoadInline(c, disk, enc.value.keys, order, EMPTY).value);
      }
    }
    AddGrows(c, reg0, "", flatAccess);
    var reg1 := AddLabeled(c, reg0, "", flatAccess).value;
    AddGrows(c, reg1, "", flatOption);
    var reg2 := AddLabeled(c, reg1, "", flatOption).value;
    var folder := if enc == None then "" else enc.value.keysFolder;
    var p1 := if enc == None then NO_POINTER else enc.value.secretKey;
    var p2 := if enc == None then NO_POINTER else enc.value.optionKey;
    ActiveGrows(c, disk, folder, flatAccess, reg2, p1);
    var (reg3, access) := ResolveActiveKey(c, disk, folder, flatAccess, reg2, p1).value;
    ActiveGrows(c, disk, folder, flatOption, reg3, p2);
  }

  /** The fallback that currentKeyset builds from the flat fields when nothing was resolved. */
  function FlatKeyset(c: Cipher, flatAccess: string, flatOption: string): Keyset {
    var m0: map<string, string> := map[];
    var m1 := if flatAccess == "" then m0 else m0[KeyID(c, flatAccess) := flatAccess];
    var m2 := if flatOption == "" then m1 else m1[KeyID(c, flatOption) := flatOption];
    Keyset(m2, KeyID(c, flatAccess), KeyID(c, flatOption), flatAccess, flatOption)
  }

  /** With no keys file, resolution gives the flat fallback, exactly when both flat keys are valid. */
  lemma NoKeysFileIsFlatFallback(c: Cipher, disk: Disk, flatAccess: string, flatOption: string)
    ensures Resolve(c, None, disk, [], flatAccess, flatOption)
         == if ValidKey(flatAccess) && ValidKey(flatOption) then Some(FlatKeyset(c, flatAccess, flatOption)) else None
  {
  }

  // --- hot reload ---

  /** The keyset pointer that readers load without locking. */
  class KeyringStore {
    var current: Option<Keyset>

    constructor ()
      ensures current == None
    {
      current := None;
    }

    /** reloadEncryptionKeys: `source` is None when the keys file cannot be read, Some(None) when
        none is configured. A failure leaves the keyset untouched; "not changed" means the freshly
        resolved keyset is identical to the installed one. */
    method Reload(
      c: Cipher, source: Option<Option<EncConfig>>, disk: Disk, flatAccess: string, flatOption: string, force: bool)
      returns (ok: bool, changed: bool, order: seq<string>)
      modifies this
      ensures source.Some? && source.value.Some? ==> Enumerates(order, source.value.value.keys)
      ensures ok <==> source.Some? && Resolve(c, source.value, disk, order, flatAccess, flatOption).Some?
      ensures !ok ==> !changed && current == old(current)
      ensures ok ==> current == Resolve(c, source.value, disk, order, flatAccess, flatOption)
      ensures ok ==> WellFormed(c, current.value)
      ensures ok && !force ==> (changed <==> current != old(current))
      ensures ok && force ==> changed
    {
      order := [];
      if source == None {
        return false, false, [];
      }
      var ks;
      ks, order := ResolveEncryptionKeysFrom(c, source.value, disk, flatAccess, flatOption);
      if ks == None {
        return false, false, order;
      }
      ResolvedIsWellFormed(c, source.value, disk, order, flatAccess, flatOption);
      if !force && current.Some? {
        assert RawKey("") == None;
        KeysetsEqualIsEquality(ks.value, current.value);
        if KeysetsEqual(ks.value, current.value) {
          return true, false, order;
        }
      }
      current := ks;
      return true, true, order;
    }
  }
}
