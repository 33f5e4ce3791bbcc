/** Resolution read off the configuration: when it succeeds, which keys it registers and which it makes
    active, without mention of the steps that compute it. */
module KeyResolution {
  import opened Wrappers
  import opened Collections
  import opened Base64
  import opened Aead
  import opened Envelope
  import opened Keyring
  import opened KeyConfig
  import opened KeyOrder

  // --- the keys folder ---

  /** A regular file whose name does not start with a dot. */
  predicate IsKeyFile(e: FolderEntry) {
    e.regular && !("." <= e.name)
  }

  /** Every key file can be read and holds a valid key or nothing. */
  predicate FilesOk(entries: seq<FolderEntry>) {
    forall i | 0 <= i < |entries| && IsKeyFile(entries[i]) ::
      entries[i].content.Some? && ValidKey(entries[i].content.value)
  }

  /** Some key file holds this material under this name. */
  ghost predicate FileHolds(entries: seq<FolderEntry>, name: string, material: string) {
    exists i | 0 <= i < |entries| ::
      IsKeyFile(entries[i]) && entries[i].name == name && entries[i].content == Some(material) && material != ""
  }

  lemma FileHoldsSnoc(init: seq<FolderEntry>, e: FolderEntry, name: string, material: string)
    ensures FileHolds(init + [e], name, material) <==>
            || FileHolds(init, name, material)
            || (IsKeyFile(e) && e.name == name && e.content == Some(material) && material != "")
  {
    var all := init + [e];
    assert all[|init|] == e && forall i | 0 <= i < |init| :: all[i] == init[i];
  }

  /** Some key file holds a key with this id. */
  ghost predicate FileHasID(c: Cipher, entries: seq<FolderEntry>, id: string) {
    exists i | 0 <= i < |entries| :: HoldsKey(entries[i]) && KeyID(c, entries[i].content.value) == id
  }

  predicate HoldsKey(e: FolderEntry) {
    IsKeyFile(e) && e.content.Some? && e.content.value != ""
  }

  lemma FileHasIDSnoc(c: Cipher, init: seq<FolderEntry>, e: FolderEntry, id: string)
    ensures FileHasID(c, init + [e], id) <==> FileHasID(c, init, id) || (HoldsKey(e) && KeyID(c, e.content.value) == id)
  {
    var all := init + [e];
    assert all[|init|] == e && forall i | 0 <= i < |init| :: all[i] == init[i];
  }

  /** The folder's labels and ids are those of its key files. */
  ghost predicate LabelsLoaded(entries: seq<FolderEntry>, byLabel: map<string, string>) {
    && (forall l | l in byLabel :: FileHolds(entries, l, byLabel[l]))
    && (forall l, m | FileHolds(entries, l, m) :: l in byLabel)
  }

  ghost predicate IdsLoaded(c: Cipher, entries: seq<FolderEntry>, byID: map<string, string>) {
    forall id :: id in byID <==> FileHasID(c, entries, id)
  }

  lemma {:induction false} FolderLoadsIff(c: Cipher, entries: seq<FolderEntry>)
    ensures LoadFolder(c, entries, EMPTY).Some? <==> FilesOk(entries)
  {
    if entries != [] {
      var init, e := entries[..|entries| - 1], entries[|entries| - 1];
      FolderLoadsIff(c, init);
      assert entries == init + [e];
      assert "." <= e.name <==> e.name != "" && e.name[0] == '.';
    }
  }

  lemma LabelsStep(init: seq<FolderEntry>, e: FolderEntry, byLabel: map<string, string>)
    requires LabelsLoaded(init, byLabel)
    ensures LabelsLoaded(init + [e], if HoldsKey(e) then byLabel[e.name := e.content.value] else byLabel)
  {
    var all, byLabel' := init + [e], if HoldsKey(e) then byLabel[e.name := e.content.value] else byLabel;
    forall l | l in byLabel'
      ensures FileHolds(all, l, byLabel'[l])
    {
      FileHoldsSnoc(init, e, l, byLabel'[l]);
    }
    forall l, m | FileHolds(all, l, m)
      ensures l in byLabel'
    {
      FileHoldsSnoc(init, e, l, m);
    }
  }

  lemma IdsStep(c: Cipher, init: seq<FolderEntry>, e: FolderEntry, byID: map<string, string>)
    requires IdsLoaded(c, init, byID)
    ensures IdsLoaded(c, init + [e], if HoldsKey(e) then byID[KeyID(c, e.content.value) := e.content.value] else byID)
  {
    forall id
      ensures FileHasID(c, init + [e], id)
         <==> FileHasID(c, init, id) || (HoldsKey(e) && KeyID(c, e.content.value) == id)
    {
      FileHasIDSnoc(c, init, e, id);
    }
  }

  lemma {:induction false} FolderLoads(c: Cipher, entries: seq<FolderEntry>)
    requires LoadFolder(c, entries, EMPTY).Some?
    ensures LabelsLoaded(entries, LoadFolder(c, entries, EMPTY).value.byLabel)
    ensures IdsLoaded(c, entries, LoadFolder(c, entries, EMPTY).value.byID)
  {
    if entries != [] {
      var init, e := entries[..|entries| - 1], entries[|entries| - 1];
      assert entries == init + [e];
      assert "." <= e.name <==> e.name != "" && e.name[0] == '.';
      FolderLoads(c, init);
      var reg := LoadFolder(c, init, EMPTY).value;
      LabelsStep(init, e, reg.byLabel);
      IdsStep(c, init, e, reg.byID);
    }
  }

  // --- active pointers ---

  /** Where an active file is looked for. */
  function PathOf(folder: string, file: string): string {
    if "/" <= file || folder == "" then file else folder + "/" + file
  }

  /** The file is not loaded under its name, so it is read. */
  predicate IsRead(labels: map<string, string>, ptr: Pointer) {
    ptr.name == "" && ptr.file != "" && ptr.file !in labels
  }

  /** A pointer can be followed: its label names a key, or its file is loaded or can be read and holds a
      valid key or nothing. No pointer needs nothing. */
  predicate CanFollow(disk: Disk, folder: string, labels: map<string, string>, ptr: Pointer) {
    && (ptr.name != "" ==> ptr.name in labels)
    && (IsRead(labels, ptr) ==>
        PathOf(folder, ptr.file) in disk.files && ValidKey(disk.files[PathOf(folder, ptr.file)]))
  }

  /** The material a pointer leads to: label, then loaded file, then read file, then the flat key. */
  function Leads(disk: Disk, folder: string, labels: map<string, string>, ptr: Pointer, flat: string): string
    requires CanFollow(disk, folder, labels, ptr)
  {
    if ptr.name != "" then labels[ptr.name]
    else if ptr.file == "" then flat
    else if ptr.file in labels then labels[ptr.file]
    else disk.files[PathOf(folder, ptr.file)]
  }

  /** The labels once a pointer has been followed. */
  function LabelsAfter(disk: Disk, folder: string, labels: map<string, string>, ptr: Pointer): map<string, string>
    requires CanFollow(disk, folder, labels, ptr)
  {
    if IsRead(labels, ptr) && disk.files[PathOf(folder, ptr.file)] != ""
    then labels[ptr.file := disk.files[PathOf(folder, ptr.file)]] else labels
  }

  /** The labels a pointer may use: the flat fields are registered under the empty label, which no pointer
      means. */
  ghost predicate SameNames(a: map<string, string>, b: map<string, string>) {
    forall l | l != "" :: (l in a <==> l in b) && (l in a ==> a[l] == b[l])
  }

  lemma FollowIs(
    c: Cipher, disk: Disk, folder: string, flat: string, reg: Registry, ptr: Pointer, labels: map<string, string>)
    requires SameNames(reg.byLabel, labels)
    ensures var r := ResolveActiveKey(c, disk, folder, flat, reg, ptr);
            && (r.Some? <==> CanFollow(disk, folder, labels, ptr))
            && (r.Some? ==>
                  && r.value.1 == Leads(disk, folder, labels, ptr, flat)
                  && SameNames(r.value.0.byLabel, LabelsAfter(disk, folder, labels, ptr))
                  && forall id :: id in r.value.0.byID <==>
                       || id in reg.byID
                       || (IsRead(labels, ptr) && disk.files[PathOf(folder, ptr.file)] != ""
                           && id == KeyID(c, disk.files[PathOf(folder, ptr.file)])))
  {
    assert ptr.file != "" ==> ("/" <= ptr.file <==> ptr.file[0] == '/');
  }

  // --- the whole configuration ---

  predicate FolderOk(enc: EncConfig, disk: Disk) {
    enc.keysFolder != "" ==> disk.folder.Some? && FilesOk(disk.folder.value)
  }

  /** Everything the configuration names can be loaded. */
  predicate CanLoad(enc: EncConfig, disk: Disk, flatAccess: string, flatOption: string) {
    SourcesOk(disk, enc.keys) && FolderOk(enc, disk) && ValidKey(flatAccess) && ValidKey(flatOption)
  }

  /** What the folder adds to a registry that has labels only. */
  function FolderPart(c: Cipher, enc: EncConfig, disk: Disk): Option<Registry> {
    if enc.keysFolder == "" then Some(EMPTY)
    else if disk.folder == None then None
    else LoadFolder(c, disk.folder.value, EMPTY)
  }

  lemma FolderPartIff(c: Cipher, enc: EncConfig, disk: Disk)
    ensures FolderPart(c, enc, disk).Some? <==> FolderOk(enc, disk)
  {
    if enc.keysFolder != "" && disk.folder.Some? {
      FolderLoadsIff(c, disk.folder.value);
    }
  }

  lemma RestFromFolder(c: Cipher, enc: EncConfig, disk: Disk, flatAccess: string, flatOption: string)
    ensures var top := Registry(map[], Labels(disk, enc.keys));
            var part := FolderPart(c, enc, disk);
            LoadRest(c, enc, disk, top, flatAccess, flatOption)
            == if part == None || !ValidKey(flatAccess) || !ValidKey(flatOption) then None
               else Some(WithFlat(c, WithFlat(c, Over(top, part.value), flatAccess), flatOption))
  {
    var top := Registry(map[], Labels(disk, enc.keys));
    OverEmpty(top);
    if enc.keysFolder != "" && disk.folder.Some? {
      FolderOver(c, disk.folder.value, top, EMPTY);
    }
  }

  function WithFlat(c: Cipher, reg: Registry, flat: string): Registry {
    if flat == "" then reg else Registry(reg.byID[KeyID(c, flat) := flat], reg.byLabel["" := flat])
  }

  lemma RestIff(c: Cipher, enc: EncConfig, disk: Disk, flatAccess: string, flatOption: string)
    ensures var r := LoadRest(c, enc, disk, Registry(map[], Labels(disk, enc.keys)), flatAccess, flatOption);
            r.Some? <==> FolderOk(enc, disk) && ValidKey(flatAccess) && ValidKey(flatOption)
  {
    FolderPartIff(c, enc, disk);
    RestFromFolder(c, enc, disk, flatAccess, flatOption);
  }

  lemma RestNames(c: Cipher, enc: EncConfig, disk: Disk, flatAccess: string, flatOption: string)
    requires LoadRest(c, enc, disk, Registry(map[], Labels(disk, enc.keys)), flatAccess, flatOption).Some?
    ensures var r := LoadRest(c, enc, disk, Registry(map[], Labels(disk, enc.keys)), flatAccess, flatOption);
            SameNames(r.value.byLabel, LabelsWithFolder(c, enc, disk))
  {
    forall l | l != "" {
      RestLabels(c, enc, disk, flatAccess, flatOption, l);
    }
  }

  /** The ids registered besides the inline ones. */
  ghost predicate OtherID(c: Cipher, enc: EncConfig, disk: Disk, flatAccess: string, flatOption: string, id: string) {
    || (enc.keysFolder != "" && disk.folder.Some? && FileHasID(c, disk.folder.value, id))
    || (flatAccess != "" && id == KeyID(c, flatAccess))
    || (flatOption != "" && id == KeyID(c, flatOption))
  }

  lemma RestIds(c: Cipher, enc: EncConfig, disk: Disk, flatAccess: string, flatOption: string, id: string)
    requires LoadRest(c, enc, disk, Registry(map[], Labels(disk, enc.keys)), flatAccess, flatOption).Some?
    ensures var r := LoadRest(c, enc, disk, Registry(map[], Labels(disk, enc.keys)), flatAccess, flatOption);
            id in r.value.byID <==> OtherID(c, enc, disk, flatAccess, flatOption, id)
  {
    RestFromFolder(c, enc, disk, flatAccess, flatOption);
    FolderPartIds(c, enc, disk, id);
  }

  lemma FolderPartIds(c: Cipher, enc: EncConfig, disk: Disk, id: string)
    requires FolderPart(c, enc, disk).Some?
    ensures id in FolderPart(c, enc, disk).value.byID
       <==> enc.keysFolder != "" && disk.folder.Some? && FileHasID(c, disk.folder.value, id)
  {
    if enc.keysFolder != "" {
      FolderLoads(c, disk.folder.value);
    }
  }

  lemma OverEmpty(reg: Registry)
    ensures Over(reg, EMPTY) == reg
  {
    assert reg.byLabel + map[] == reg.byLabel && reg.byID + map[] == reg.byID;
  }

  /** Resolution succeeds, in every order, exactly when everything the configuration names can be loaded,
      the access pointer can be followed, and then the option pointer. */
  lemma ResolvesIff(c: Cipher, enc: EncConfig, disk: Disk, order: seq<string>, flatAccess: string, flatOption: string)
    requires Enumerates(order, enc.keys)
    ensures var labels := LabelsWithFolder(c, enc, disk);
            Resolve(c, Some(enc), disk, order, flatAccess, flatOption).Some? <==>
            && CanLoad(enc, disk, flatAccess, flatOption)
            && CanFollow(disk, enc.keysFolder, labels, enc.secretKey)
            && CanFollow(disk, enc.keysFolder, LabelsAfter(disk, enc.keysFolder, labels, enc.secretKey), enc.optionKey)
  {
    var labels, top := LabelsWithFolder(c, enc, disk), Registry(map[], Labels(disk, enc.keys));
    ResolveIs(c, enc, disk, order, flatAccess, flatOption);
    RestIff(c, enc, disk, flatAccess, flatOption);
    var r := LoadRest(c, enc, disk, top, flatAccess, flatOption);
    if r.Some? {
      RestNames(c, enc, disk, flatAccess, flatOption);
      PickIs(c, enc, disk, r.value, flatAccess, flatOption, labels);
    }
  }

  lemma PickIs(
    c: Cipher, enc: EncConfig, disk: Disk, reg: Registry, flatAccess: string, flatOption: string,
    labels: map<string, string>)
    requires SameNames(reg.byLabel, labels)
    ensures var r := PickActive(c, enc, disk, reg, flatAccess, flatOption);
            && (r.Some? <==>
                && CanFollow(disk, enc.keysFolder, labels, enc.secretKey)
                && CanFollow(disk, enc.keysFolder, LabelsAfter(disk, enc.keysFolder, labels, enc.secretKey),
                             enc.optionKey))
            && (r.Some? ==>
                  var after := LabelsAfter(disk, enc.keysFolder, labels, enc.secretKey);
                  && r.value.accessID == KeyID(c, Leads(disk, enc.keysFolder, labels, enc.secretKey, flatAccess))
                  && r.value.optionID == KeyID(c, Leads(disk, enc.keysFolder, after, enc.optionKey, flatOption))
                  && r.value.legacyAccess == flatAccess && r.value.legacyOption == flatOption)
  {
    FollowIs(c, disk, enc.keysFolder, flatAccess, reg, enc.secretKey, labels);
    var r1 := ResolveActiveKey(c, disk, enc.keysFolder, flatAccess, reg, enc.secretKey);
    if r1.Some? {
      var after := LabelsAfter(disk, enc.keysFolder, labels, enc.secretKey);
      FollowIs(c, disk, enc.keysFolder, flatOption, r1.value.0, enc.optionKey, after);
    }
  }

  /** The active ids are those of the keys that the pointers lead to; without a pointer, of the flat key,
      whatever else is configured. */
  lemma ActiveIs(c: Cipher, enc: EncConfig, disk: Disk, order: seq<string>, flatAccess: string, flatOption: string)
    requires Enumerates(order, enc.keys) && Resolve(c, Some(enc), disk, order, flatAccess, flatOption).Some?
    ensures var ks := Resolve(c, Some(enc), disk, order, flatAccess, flatOption).value;
            var labels := LabelsWithFolder(c, enc, disk);
            && CanFollow(disk, enc.keysFolder, labels, enc.secretKey)
            && ks.accessID == KeyID(c, Leads(disk, enc.keysFolder, labels, enc.secretKey, flatAccess))
            && var after := LabelsAfter(disk, enc.keysFolder, labels, enc.secretKey);
               && CanFollow(disk, enc.keysFolder, after, enc.optionKey)
               && ks.optionID == KeyID(c, Leads(disk, enc.keysFolder, after, enc.optionKey, flatOption))
               && ks.legacyAccess == flatAccess && ks.legacyOption == flatOption
  {
    var labels, top := LabelsWithFolder(c, enc, disk), Registry(map[], Labels(disk, enc.keys));
    ResolvesIff(c, enc, disk, order, flatAccess, flatOption);
    ResolveIs(c, enc, disk, order, flatAccess, flatOption);
    RestNames(c, enc, disk, flatAccess, flatOption);
    PickIs(c, enc, disk, LoadRest(c, enc, disk, top, flatAccess, flatOption).value, flatAccess, flatOption, labels);
  }

  lemma PickIds(
    c: Cipher, enc: EncConfig, disk: Disk, reg: Registry, flatAccess: string, flatOption: string,
    labels: map<string, string>, id: string)
    requires SameNames(reg.byLabel, labels) && PickActive(c, enc, disk, reg, flatAccess, flatOption).Some?
    ensures CanFollow(disk, enc.keysFolder, labels, enc.secretKey)
    ensures var after := LabelsAfter(disk, enc.keysFolder, labels, enc.secretKey);
            id in PickActive(c, enc, disk, reg, flatAccess, flatOption).value.byID <==>
            || id in reg.byID
            || ReadsKey(c, disk, enc.keysFolder, labels, enc.secretKey, id)
            || ReadsKey(c, disk, enc.keysFolder, after, enc.optionKey, id)
  {
    FollowIs(c, disk, enc.keysFolder, flatAccess, reg, enc.secretKey, labels);
    var r1 := ResolveActiveKey(c, disk, enc.keysFolder, flatAccess, reg, enc.secretKey);
    var after := LabelsAfter(disk, enc.keysFolder, labels, enc.secretKey);
    FollowIs(c, disk, enc.keysFolder, flatOption, r1.value.0, enc.optionKey, after);
  }

  /** Following the pointer reads a key with this id from a file. */
  predicate ReadsKey(c: Cipher, disk: Disk, folder: string, labels: map<string, string>, ptr: Pointer, id: string) {
    && IsRead(labels, ptr) && PathOf(folder, ptr.file) in disk.files
    && disk.files[PathOf(folder, ptr.file)] != "" && id == KeyID(c, disk.files[PathOf(folder, ptr.file)])
  }

  ghost predicate InlineID(c: Cipher, enc: EncConfig, disk: Disk, id: string) {
    exists l :: l in Labels(disk, enc.keys) && KeyID(c, Labels(disk, enc.keys)[l]) == id
  }

  /** The registered keys are exactly the inline keys, the key files of the folder, the flat keys and the
      files read for the active pointers. */
  lemma RegisteredIff(
    c: Cipher, enc: EncConfig, disk: Disk, order: seq<string>, flatAccess: string, flatOption: string, id: string)
    requires Enumerates(order, enc.keys) && Resolve(c, Some(enc), disk, order, flatAccess, flatOption).Some?
    ensures var labels := LabelsWithFolder(c, enc, disk);
            && CanFollow(disk, enc.keysFolder, labels, enc.secretKey)
            && var after := LabelsAfter(disk, enc.keysFolder, labels, enc.secretKey);
               (id in Resolve(c, Some(enc), disk, order, flatAccess, flatOption).value.byID <==>
                || InlineID(c, enc, disk, id) || OtherID(c, enc, disk, flatAccess, flatOption, id)
                || ReadsKey(c, disk, enc.keysFolder, labels, enc.secretKey, id)
                || ReadsKey(c, disk, enc.keysFolder, after, enc.optionKey, id))
  {
    var labels, top := LabelsWithFolder(c, enc, disk), Registry(map[], Labels(disk, enc.keys));
    ResolveIs(c, enc, disk, order, flatAccess, flatOption);
    var rest := LoadRest(c, enc, disk, top, flatAccess, flatOption);
    RestNames(c, enc, disk, flatAccess, flatOption);
    RestIds(c, enc, disk, flatAccess, flatOption, id);
    PickIds(c, enc, disk, rest.value, flatAccess, flatOption, labels, id);
    LoadedIds(c, Labels(disk, enc.keys), order, LoadInline(c, disk, enc.keys, order, KeyConfig.EMPTY).value, id);
  }

  lemma LoadedIds(c: Cipher, labels: map<string, string>, order: seq<string>, reg: Registry, id: string)
    requires Loaded(c, labels, order, reg) && forall l | l in labels :: l in order
    ensures id in reg.byID <==> exists l :: l in labels && KeyID(c, labels[l]) == id
  {
  }

  /** No pointer: the flat key is active. */
  lemma NoPointerMeansFlat(
    c: Cipher, enc: EncConfig, disk: Disk, order: seq<string>, flatAccess: string, flatOption: string)
    requires Enumerates(order, enc.keys) && Resolve(c, Some(enc), disk, order, flatAccess, flatOption).Some?
    ensures var ks := Resolve(c, Some(enc), disk, order, flatAccess, flatOption).value;
            && (enc.secretKey == Pointer("", "") ==> ks.accessID == KeyID(c, flatAccess))
            && (enc.optionKey == Pointer("", "") ==> ks.optionID == KeyID(c, flatOption))
  {
    ActiveIs(c, enc, disk, order, flatAccess, flatOption);
  }

  /** A file pointer: the key loaded under that name, else the file itself, is active. */
  lemma FilePointerMeansFile(
    c: Cipher, enc: EncConfig, disk: Disk, order: seq<string>, flatAccess: string, flatOption: string)
    requires Enumerates(order, enc.keys) && Resolve(c, Some(enc), disk, order, flatAccess, flatOption).Some?
    requires enc.secretKey.name == "" && enc.secretKey.file != ""
    ensures var ks := Resolve(c, Some(enc), disk, order, flatAccess, flatOption).value;
            var (file, labels) := (enc.secretKey.file, LabelsWithFolder(c, enc, disk));
            if file in labels then ks.accessID == KeyID(c, labels[file])
            else && PathOf(enc.keysFolder, file) in disk.files
                 && ks.accessID == KeyID(c, disk.files[PathOf(enc.keysFolder, file)])
  {
    ActiveIs(c, enc, disk, order, flatAccess, flatOption);
  }

  // --- key material ---

  /** Which materials are keys: base64 of 16, 24 or 32 bytes; the empty one means none. */
  lemma ValidKeyIff(b: Bytes)
    ensures ValidKey(Encode(b)) <==> |b| == 0 || |b| == 16 || |b| == 24 || |b| == 32
  {
    RoundTrip(b);
  }

  /** A source with both a value and a file is refused, a file is read, a value is taken as it is. */
  lemma SourceIs(disk: Disk, src: KeySource)
    ensures src.value != "" && src.file != "" ==> ResolveKeySource(disk, src) == None
    ensures src.value == "" && src.file != "" && src.file !in disk.files ==> ResolveKeySource(disk, src) == None
    ensures src.value == "" && src.file != "" && src.file in disk.files ==>
              ResolveKeySource(disk, src) == Some(disk.files[src.file])
    ensures src.file == "" ==> ResolveKeySource(disk, src) == Some(src.value)
  {
  }
}
