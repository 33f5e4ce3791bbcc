/** What the walking order of the configured keys can change. Go walks the map of keys in an arbitrary
    order on every load, and the poller compares the freshly resolved keyset with the installed one. */
module KeyOrder {
  import opened Wrappers
  import opened Collections
  import opened Base64
  import opened Aead
  import opened Envelope
  import opened Strings
  import opened Keyring
  import opened KeyConfig

  predicate SourceOk(disk: Disk, src: KeySource) {
    ResolveKeySource(disk, src).Some? && ValidKey(ResolveKeySource(disk, src).value)
  }

  predicate HasMaterial(disk: Disk, src: KeySource) {
    ResolveKeySource(disk, src).Some? && ResolveKeySource(disk, src).value != ""
  }

  /** The labels that carry a key, with their materials. */
  function Labels(disk: Disk, keys: map<string, KeySource>): map<string, string> {
    map l | l in keys && HasMaterial(disk, keys[l]) :: ResolveKeySource(disk, keys[l]).value
  }

  predicate SourcesOk(disk: Disk, keys: map<string, KeySource>) {
    forall l | l in keys :: SourceOk(disk, keys[l])
  }

  // --- inline keys ---

  /** Loading in some order registers the labels of that order, each id with the material of one of
      the labels that have it. */
  ghost predicate Loaded(c: Cipher, labels: map<string, string>, order: seq<string>, reg: Registry) {
    && (forall l :: l in reg.byLabel <==> l in order && l in labels)
    && (forall l | l in reg.byLabel :: reg.byLabel[l] == labels[l] && KeyID(c, labels[l]) in reg.byID)
    && (forall id | id in reg.byID ::
          exists l :: l in reg.byLabel && KeyID(c, labels[l]) == id && reg.byID[id] == labels[l])
  }

  lemma AddLoaded(c: Cipher, labels: map<string, string>, order: seq<string>, l: string, reg: Registry)
    requires Loaded(c, labels, order, reg) && l !in order
    ensures l !in labels ==> Loaded(c, labels, order + [l], reg)
    ensures l in labels ==>
              var reg' := Registry(reg.byID[KeyID(c, labels[l]) := labels[l]], reg.byLabel[l := labels[l]]);
              Loaded(c, labels, order + [l], reg')
  {
    assert forall x :: x in order + [l] <==> x in order || x == l;
    if l in labels {
      var reg' := Registry(reg.byID[KeyID(c, labels[l]) := labels[l]], reg.byLabel[l := labels[l]]);
      forall id | id in reg'.byID
        ensures exists x :: x in reg'.byLabel && KeyID(c, labels[x]) == id && reg'.byID[id] == labels[x]
      {
        if id == KeyID(c, labels[l]) {
          assert l in reg'.byLabel;
        } else {
          var x :| x in reg.byLabel && KeyID(c, labels[x]) == id && reg.byID[id] == labels[x];
          assert x in reg'.byLabel;
        }
      }
    }
  }

  lemma StepLoaded(c: Cipher, disk: Disk, keys: map<string, KeySource>, order: seq<string>, l: string, reg: Registry)
    requires Loaded(c, Labels(disk, keys), order, reg) && l !in order && l in keys && SourceOk(disk, keys[l])
    ensures var r := AddLabeled(c, reg, l, ResolveKeySource(disk, keys[l]).value);
            r.Some? && Loaded(c, Labels(disk, keys), order + [l], r.value)
  {
    AddLoaded(c, Labels(disk, keys), order, l, reg);
  }

  /** Inline loading succeeds in every order or in none. */
  lemma {:induction false} InlineLoadsIff(c: Cipher, disk: Disk, keys: map<string, KeySource>, order: seq<string>)
    requires forall l | l in order :: l in keys
    ensures LoadInline(c, disk, keys, order, EMPTY).Some? <==> forall l | l in order :: SourceOk(disk, keys[l])
  {
    if order != [] {
      var init, l := order[..|order| - 1], order[|order| - 1];
      assert order == init + [l];
      InlineLoadsIff(c, disk, keys, init);
    }
  }

  lemma {:induction false} InlineLoads(c: Cipher, disk: Disk, keys: map<string, KeySource>, order: seq<string>)
    requires Distinct(order) && (forall l | l in order :: l in keys) && LoadInline(c, disk, keys, order, EMPTY).Some?
    ensures Loaded(c, Labels(disk, keys), order, LoadInline(c, disk, keys, order, EMPTY).value)
  {
    if order != [] {
      var init, l := order[..|order| - 1], order[|order| - 1];
      assert order == init + [l] && l !in init;
      InlineLoads(c, disk, keys, init);
      StepLoaded(c, disk, keys, init, l, LoadInline(c, disk, keys, init, EMPTY).value);
    }
  }

  /** The last label walked decides the material of its id. */
  lemma LastWins(c: Cipher, disk: Disk, keys: map<string, KeySource>, order: seq<string>, l: string)
    requires (forall x | x in order + [l] :: x in keys) && HasMaterial(disk, keys[l])
    ensures var r := LoadInline(c, disk, keys, order + [l], EMPTY);
            var m := ResolveKeySource(disk, keys[l]).value;
            r.Some? ==> KeyID(c, m) in r.value.byID && r.value.byID[KeyID(c, m)] == m
  {
    assert (order + [l])[..|order|] == order;
  }

  // --- what follows the inline keys does not look at the ids ---

  /** One registry on top of another. */
  function Over(base: Registry, top: Registry): Registry {
    Registry(base.byID + top.byID, base.byLabel + top.byLabel)
  }

  function OverAll(base: Registry, top: Option<Registry>): Option<Registry> {
    if top == None then None else Some(Over(base, top.value))
  }

  lemma AddOver(c: Cipher, base: Registry, reg: Registry, name: string, material: string)
    ensures AddLabeled(c, Over(base, reg), name, material) == OverAll(base, AddLabeled(c, reg, name, material))
  {
    var id := KeyID(c, material);
    assert (base.byID + reg.byID)[id := material] == base.byID + reg.byID[id := material];
    assert (base.byLabel + reg.byLabel)[name := material] == base.byLabel + reg.byLabel[name := material];
  }

  lemma {:induction false} FolderOver(c: Cipher, entries: seq<FolderEntry>, base: Registry, reg: Registry)
    ensures LoadFolder(c, entries, Over(base, reg)) == OverAll(base, LoadFolder(c, entries, reg))
  {
    if entries != [] {
      var init, e := entries[..|entries| - 1], entries[|entries| - 1];
      FolderOver(c, init, base, reg);
      var r := LoadFolder(c, init, reg);
      if r.Some? && e.content.Some? {
        AddOver(c, base, r.value, e.name, e.content.value);
      }
    }
  }

  /** Ids only, under a registry whose labels count. */
  function IdsOver(ids: map<string, string>, reg: Registry): Registry {
    Over(Registry(ids, map[]), reg)
  }

  lemma IdsOverLabels(ids: map<string, string>, reg: Registry)
    ensures IdsOver(ids, reg).byLabel == reg.byLabel && IdsOver(ids, reg).byID == ids + reg.byID
  {
    assert map[] + reg.byLabel == reg.byLabel;
  }

  lemma ActiveOver(
    c: Cipher, disk: Disk, folder: string, flat: string, ids: map<string, string>, reg: Registry, ptr: Pointer)
    ensures var r := ResolveActiveKey(c, disk, folder, flat, reg, ptr);
            ResolveActiveKey(c, disk, folder, flat, IdsOver(ids, reg), ptr)
              == if r == None then None else Some((IdsOver(ids, r.value.0), r.value.1))
  {
    IdsOverLabels(ids, reg);
    if ptr.name == "" && ptr.file != "" && ptr.file !in reg.byLabel {
      var path := if ptr.file[0] == '/' || folder == "" then ptr.file else folder + "/" + ptr.file;
      if path in disk.files {
        AddOver(c, Registry(ids, map[]), reg, ptr.file, disk.files[path]);
      }
    }
  }

  /** The rest of the resolution after the inline keys: folder, flat fields, active pointers. */
  function LoadRest(c: Cipher, enc: EncConfig, disk: Disk, reg: Registry, flatAccess: string, flatOption: string)
    : Option<Registry>
  {
    var reg :- if enc.keysFolder == "" then Some(reg) else
                 (if disk.folder == None then None else LoadFolder(c, disk.folder.value, reg));
    var reg :- AddLabeled(c, reg, "", flatAccess);
    AddLabeled(c, reg, "", flatOption)
  }

  function PickActive(c: Cipher, enc: EncConfig, disk: Disk, reg: Registry, flatAccess: string, flatOption: string)
    : Option<Keyset>
  {
    var (reg, access) :- ResolveActiveKey(c, disk, enc.keysFolder, flatAccess, reg, enc.secretKey);
    var (reg, option) :- ResolveActiveKey(c, disk, enc.keysFolder, flatOption, reg, enc.optionKey);
    Some(Keyset(reg.byID, KeyID(c, access), KeyID(c, option), flatAccess, flatOption))
  }

  function Finish(c: Cipher, enc: EncConfig, disk: Disk, reg: Registry, flatAccess: string, flatOption: string)
    : Option<Keyset>
  {
    var reg :- LoadRest(c, enc, disk, reg, flatAccess, flatOption);
    PickActive(c, enc, disk, reg, flatAccess, flatOption)
  }

  lemma ResolveInTwo(c: Cipher, enc: EncConfig, disk: Disk, order: seq<string>, flatAccess: string, flatOption: string)
    requires forall l | l in order :: l in enc.keys
    ensures var r := LoadInline(c, disk, enc.keys, order, EMPTY);
            Resolve(c, Some(enc), disk, order, flatAccess, flatOption)
              == if r == None then None else Finish(c, enc, disk, r.value, flatAccess, flatOption)
  {
  }

  lemma RestOver(
    c: Cipher, enc: EncConfig, disk: Disk, base: Registry, reg: Registry, flatAccess: string, flatOption: string)
    ensures LoadRest(c, enc, disk, Over(base, reg), flatAccess, flatOption)
         == OverAll(base, LoadRest(c, enc, disk, reg, flatAccess, flatOption))
  {
    var r0 := Some(reg);
    if enc.keysFolder != "" && disk.folder.Some? {
      FolderOver(c, disk.folder.value, base, reg);
      r0 := LoadFolder(c, disk.folder.value, reg);
    }
    if r0.Some? {
      AddOver(c, base, r0.value, "", flatAccess);
      var r1 := AddLabeled(c, r0.value, "", flatAccess);
      if r1.Some? {
        AddOver(c, base, r1.value, "", flatOption);
      }
    }
  }

  lemma PickOver(
    c: Cipher, enc: EncConfig, disk: Disk, ids: map<string, string>, reg: Registry, flatAccess: string,
    flatOption: string)
    ensures var r := PickActive(c, enc, disk, reg, flatAccess, flatOption);
            PickActive(c, enc, disk, IdsOver(ids, reg), flatAccess, flatOption)
              == if r == None then None else Some(r.value.(byID := ids + r.value.byID))
  {
    ActiveOver(c, disk, enc.keysFolder, flatAccess, ids, reg, enc.secretKey);
    var r1 := ResolveActiveKey(c, disk, enc.keysFolder, flatAccess, reg, enc.secretKey);
    if r1.Some? {
      ActiveOver(c, disk, enc.keysFolder, flatOption, ids, r1.value.0, enc.optionKey);
    }
  }

  /** The keyset apart from the ids of the inline keys: it depends on the labels only, and its own ids
      are those that the folder, the flat fields or an active file register on top. */
  function Base(c: Cipher, enc: EncConfig, disk: Disk, flatAccess: string, flatOption: string): Option<Keyset> {
    Finish(c, enc, disk, Registry(map[], Labels(disk, enc.keys)), flatAccess, flatOption)
  }

  lemma FinishOver(c: Cipher, enc: EncConfig, disk: Disk, reg: Registry, flatAccess: string, flatOption: string)
    ensures var r := Finish(c, enc, disk, Registry(map[], reg.byLabel), flatAccess, flatOption);
            Finish(c, enc, disk, reg, flatAccess, flatOption)
              == if r == None then None else Some(r.value.(byID := reg.byID + r.value.byID))
  {
    var top := Registry(map[], reg.byLabel);
    IdsOverLabels(reg.byID, top);
    assert reg.byID + map[] == reg.byID;
    assert IdsOver(reg.byID, top) == reg;
    RestOver(c, enc, disk, Registry(reg.byID, map[]), top, flatAccess, flatOption);
    var r := LoadRest(c, enc, disk, top, flatAccess, flatOption);
    if r.Some? {
      PickOver(c, enc, disk, reg.byID, r.value, flatAccess, flatOption);
    }
  }

  /** Every order resolves to the same keyset but for the materials of the inline ids. */
  lemma ResolveIs(c: Cipher, enc: EncConfig, disk: Disk, order: seq<string>, flatAccess: string, flatOption: string)
    requires Enumerates(order, enc.keys)
    ensures var r := LoadInline(c, disk, enc.keys, order, EMPTY);
            var base := Base(c, enc, disk, flatAccess, flatOption);
            && (r.Some? <==> SourcesOk(disk, enc.keys))
            && (r.Some? ==> Loaded(c, Labels(disk, enc.keys), order, r.value))
            && Resolve(c, Some(enc), disk, order, flatAccess, flatOption)
               == if r == None || base == None then None
                  else Some(base.value.(byID := r.value.byID + base.value.byID))
  {
    WholeInline(c, disk, enc.keys, order);
    ResolveInTwo(c, enc, disk, order, flatAccess, flatOption);
    var r := LoadInline(c, disk, enc.keys, order, EMPTY);
    if r.Some? {
      FinishOver(c, enc, disk, r.value, flatAccess, flatOption);
    }
  }

  lemma WholeInline(c: Cipher, disk: Disk, keys: map<string, KeySource>, order: seq<string>)
    requires Enumerates(order, keys)
    ensures var r := LoadInline(c, disk, keys, order, EMPTY);
            && (r.Some? <==> SourcesOk(disk, keys))
            && (r.Some? ==> Loaded(c, Labels(disk, keys), order, r.value) && r.value.byLabel == Labels(disk, keys))
  {
    InlineLoadsIff(c, disk, keys, order);
    AllSources(disk, keys, order);
    var r := LoadInline(c, disk, keys, order, EMPTY);
    if r.Some? {
      InlineLoads(c, disk, keys, order);
      WholeLoaded(c, Labels(disk, keys), order, r.value);
    }
  }

  lemma AllSources(disk: Disk, keys: map<string, KeySource>, order: seq<string>)
    requires Enumerates(order, keys)
    ensures SourcesOk(disk, keys) <==> forall l | l in order :: SourceOk(disk, keys[l])
  {
  }

  lemma WholeLoaded(c: Cipher, labels: map<string, string>, order: seq<string>, reg: Registry)
    requires Loaded(c, labels, order, reg) && forall l | l in labels :: l in order
    ensures reg.byLabel == labels
  {
  }

  // --- when the order shows ---

  /** Whether resolution succeeds, in whatever order. */
  predicate Resolves(c: Cipher, enc: EncConfig, disk: Disk, flatAccess: string, flatOption: string) {
    SourcesOk(disk, enc.keys) && Base(c, enc, disk, flatAccess, flatOption).Some?
  }

  /** Two labels spell one key differently, and nothing registered later overrides the spelling. */
  predicate Clash(c: Cipher, labels: map<string, string>, overridden: set<string>, l: string, l': string) {
    && l in labels && l' in labels && labels[l] != labels[l']
    && KeyID(c, labels[l]) == KeyID(c, labels[l']) && KeyID(c, labels[l]) !in overridden
  }

  /** No order can change whether the configuration loads, which ids are registered, which are active,
      or the flat keys; only the spelling of a registered key. */
  lemma OrderChangesSpellingsOnly(
    c: Cipher, enc: EncConfig, disk: Disk, order: seq<string>, order': seq<string>,
    flatAccess: string, flatOption: string)
    requires Enumerates(order, enc.keys) && Enumerates(order', enc.keys)
    ensures var r := Resolve(c, Some(enc), disk, order, flatAccess, flatOption);
            var r' := Resolve(c, Some(enc), disk, order', flatAccess, flatOption);
            && (r.Some? <==> Resolves(c, enc, disk, flatAccess, flatOption)) && (r'.Some? <==> r.Some?)
            && (r.Some? ==> r'.value == r.value.(byID := r'.value.byID) && r'.value.byID.Keys == r.value.byID.Keys)
  {
    ResolveIs(c, enc, disk, order, flatAccess, flatOption);
    ResolveIs(c, enc, disk, order', flatAccess, flatOption);
    var r := LoadInline(c, disk, enc.keys, order, EMPTY);
    var r' := LoadInline(c, disk, enc.keys, order', EMPTY);
    if r.Some? {
      SameIds(c, Labels(disk, enc.keys), order, order', r.value, r'.value);
    }
  }

  lemma SameIds(
    c: Cipher, labels: map<string, string>, order: seq<string>, order': seq<string>, reg: Registry, reg': Registry)
    requires Loaded(c, labels, order, reg) && Loaded(c, labels, order', reg')
    requires forall l :: l in order <==> l in order'
    ensures reg.byID.Keys == reg'.byID.Keys
  {
  }

  lemma SameSpellings(
    c: Cipher, labels: map<string, string>, order: seq<string>, order': seq<string>, reg: Registry, reg': Registry,
    top: map<string, string>)
    requires Loaded(c, labels, order, reg) && Loaded(c, labels, order', reg')
    requires forall l :: l in order <==> l in order'
    requires forall l, l' :: !Clash(c, labels, top.Keys, l, l')
    ensures reg.byID + top == reg'.byID + top
  {
    SameIds(c, labels, order, order', reg, reg');
    forall id | id in reg.byID && id !in top
      ensures reg.byID[id] == reg'.byID[id]
    {
      var l :| l in reg.byLabel && KeyID(c, labels[l]) == id && reg.byID[id] == labels[l];
      var l' :| l' in reg'.byLabel && KeyID(c, labels[l']) == id && reg'.byID[id] == labels[l'];
      assert !Clash(c, labels, top.Keys, l, l');
    }
  }

  lemma OrderEndingWith(keys: map<string, KeySource>, l: string) returns (order: seq<string>)
    requires l in keys
    ensures Enumerates(order + [l], keys)
  {
    order := Listing(keys.Keys - {l});
    assert forall x :: x in order + [l] <==> x in order || x == l;
  }

  /** Clashing labels resolve to different keysets when one or the other is walked last. */
  lemma ClashShows(c: Cipher, enc: EncConfig, disk: Disk, flatAccess: string, flatOption: string, l: string, l': string)
    returns (order: seq<string>, order': seq<string>)
    requires Resolves(c, enc, disk, flatAccess, flatOption)
    requires Clash(c, Labels(disk, enc.keys), Base(c, enc, disk, flatAccess, flatOption).value.byID.Keys, l, l')
    ensures Enumerates(order, enc.keys) && Enumerates(order', enc.keys)
    ensures Resolve(c, Some(enc), disk, order, flatAccess, flatOption)
              != Resolve(c, Some(enc), disk, order', flatAccess, flatOption)
  {
    var init := OrderEndingWith(enc.keys, l);
    var init' := OrderEndingWith(enc.keys, l');
    order, order' := init + [l], init' + [l'];
    ResolveIs(c, enc, disk, order, flatAccess, flatOption);
    ResolveIs(c, enc, disk, order', flatAccess, flatOption);
    LastWins(c, disk, enc.keys, init, l);
    LastWins(c, disk, enc.keys, init', l');
    var id := KeyID(c, Labels(disk, enc.keys)[l]);
    var r := Resolve(c, Some(enc), disk, order, flatAccess, flatOption);
    var r' := Resolve(c, Some(enc), disk, order', flatAccess, flatOption);
    assert r.value.byID[id] != r'.value.byID[id];
  }

  /** The walking order never shows if and only if the configuration fails to load, or no two labels
      spell one key differently without a later key overriding the spelling. */
  lemma OrderIrrelevantIff(c: Cipher, enc: EncConfig, disk: Disk, flatAccess: string, flatOption: string)
    ensures (forall order, order' | Enumerates(order, enc.keys) && Enumerates(order', enc.keys) ::
               Resolve(c, Some(enc), disk, order, flatAccess, flatOption)
               == Resolve(c, Some(enc), disk, order', flatAccess, flatOption))
       <==> (Resolves(c, enc, disk, flatAccess, flatOption) ==>
               forall l, l' ::
                 !Clash(c, Labels(disk, enc.keys), Base(c, enc, disk, flatAccess, flatOption).value.byID.Keys, l, l'))
  {
    var labels, base := Labels(disk, enc.keys), Base(c, enc, disk, flatAccess, flatOption);
    if Resolves(c, enc, disk, flatAccess, flatOption)
       && exists l, l' :: Clash(c, labels, base.value.byID.Keys, l, l') {
      var l, l' :| Clash(c, labels, base.value.byID.Keys, l, l');
      var order, order' := ClashShows(c, enc, disk, flatAccess, flatOption, l, l');
    } else {
      forall order, order' | Enumerates(order, enc.keys) && Enumerates(order', enc.keys)
        ensures Resolve(c, Some(enc), disk, order, flatAccess, flatOption)
             == Resolve(c, Some(enc), disk, order', flatAccess, flatOption)
      {
        NoClashNoDifference(c, enc, disk, order, order', flatAccess, flatOption);
      }
    }
  }

  lemma NoClashNoDifference(
    c: Cipher, enc: EncConfig, disk: Disk, order: seq<string>, order': seq<string>,
    flatAccess: string, flatOption: string)
    requires Enumerates(order, enc.keys) && Enumerates(order', enc.keys)
    requires Resolves(c, enc, disk, flatAccess, flatOption) ==>
               forall l, l' ::
                 !Clash(c, Labels(disk, enc.keys), Base(c, enc, disk, flatAccess, flatOption).value.byID.Keys, l, l')
    ensures Resolve(c, Some(enc), disk, order, flatAccess, flatOption)
         == Resolve(c, Some(enc), disk, order', flatAccess, flatOption)
  {
    ResolveIs(c, enc, disk, order, flatAccess, flatOption);
    ResolveIs(c, enc, disk, order', flatAccess, flatOption);
    if Resolves(c, enc, disk, flatAccess, flatOption) {
      SameSpellings(c, Labels(disk, enc.keys), order, order',
                    LoadInline(c, disk, enc.keys, order, EMPTY).value,
                    LoadInline(c, disk, enc.keys, order', EMPTY).value,
                    Base(c, enc, disk, flatAccess, flatOption).value.byID);
    }
  }

  // --- the failing case ---

  lemma {:induction false} SkipLastNewline(s: string)
    ensures SkipNewlines(s + "\n") == SkipNewlines(s)
  {
    if s == "" {
      assert (s + "\n")[1..] == "";
    } else {
      SkipLastNewline(s[1..]);
      assert (s + "\n")[1..] == s[1..] + "\n";
    }
  }

  /** One key under two labels, the second spelled with a line break. */
  function TwoSpellings(m: string): EncConfig {
    EncConfig(map["a" := KeySource(m, ""), "b" := KeySource(m + "\n", "")], "", NO_POINTER, NO_POINTER)
  }

  lemma SpellingsClash(c: Cipher, disk: Disk, m: string)
    requires RawKey(m).Some?
    ensures Resolves(c, TwoSpellings(m), disk, "", "")
    ensures var base := Base(c, TwoSpellings(m), disk, "", "").value;
            Clash(c, Labels(disk, TwoSpellings(m).keys), base.byID.Keys, "a", "b")
  {
    SkipLastNewline(m);
    assert RawKey("") == None;
    var keys := TwoSpellings(m).keys;
    assert Labels(disk, keys) == map["a" := m, "b" := m + "\n"];
    assert KeyID(c, m) == KeyID(c, m + "\n");
    assert Base(c, TwoSpellings(m), disk, "", "") == Some(Keyset(map[], "", "", "", ""));
  }

  /** Any key written under two labels in two spellings makes two loads of the same files differ, and
      the comparison that decides whether a reload changed anything sees a change. */
  lemma SpellingsFlipReload(c: Cipher, disk: Disk, m: string) returns (order: seq<string>, order': seq<string>)
    requires RawKey(m).Some?
    ensures Enumerates(order, TwoSpellings(m).keys) && Enumerates(order', TwoSpellings(m).keys)
    ensures var r := Resolve(c, Some(TwoSpellings(m)), disk, order, "", "");
            var r' := Resolve(c, Some(TwoSpellings(m)), disk, order', "", "");
            r.Some? && r'.Some? && !KeysetsEqual(r.value, r'.value)
  {
    SpellingsClash(c, disk, m);
    order, order' := ClashShows(c, TwoSpellings(m), disk, "", "", "a", "b");
    OrderChangesSpellingsOnly(c, TwoSpellings(m), disk, order, order', "", "");
    var r := Resolve(c, Some(TwoSpellings(m)), disk, order, "", "").value;
    var r' := Resolve(c, Some(TwoSpellings(m)), disk, order', "", "").value;
    ResolvedIsWellFormed(c, Some(TwoSpellings(m)), disk, order, "", "");
    assert RawKey("") == None;
    KeysetsEqualIsEquality(r, r');
  }

  // --- active labels ---

  /** What a label names: a file of the keys folder, else an inline key. */
  function LabelsWithFolder(c: Cipher, enc: EncConfig, disk: Disk): map<string, string> {
    Labels(disk, enc.keys)
    + if enc.keysFolder == "" || disk.folder == None then map[]
      else (match LoadFolder(c, disk.folder.value, EMPTY) case None => map[] case Some(reg) => reg.byLabel)
  }

  lemma FlatKeepsLabel(c: Cipher, reg: Registry, material: string, name: string)
    requires name != "" && AddLabeled(c, reg, "", material).Some?
    ensures var reg' := AddLabeled(c, reg, "", material).value;
            && (name in reg'.byLabel <==> name in reg.byLabel)
            && (name in reg.byLabel ==> reg'.byLabel[name] == reg.byLabel[name])
  {
  }

  lemma RestLabels(c: Cipher, enc: EncConfig, disk: Disk, flatAccess: string, flatOption: string, name: string)
    requires var top := Registry(map[], Labels(disk, enc.keys));
             name != "" && LoadRest(c, enc, disk, top, flatAccess, flatOption).Some?
    ensures var top := Registry(map[], Labels(disk, enc.keys));
            var byLabel := LoadRest(c, enc, disk, top, flatAccess, flatOption).value.byLabel;
            var labels := LabelsWithFolder(c, enc, disk);
            (name in byLabel <==> name in labels) && (name in labels ==> byLabel[name] == labels[name])
  {
    var top := Registry(map[], Labels(disk, enc.keys));
    var r0 := top;
    if enc.keysFolder != "" {
      assert Over(top, EMPTY) == top by {
        assert top.byLabel + map[] == top.byLabel && top.byID + map[] == top.byID;
      }
      FolderOver(c, disk.folder.value, top, EMPTY);
      r0 := LoadFolder(c, disk.folder.value, top).value;
    }
    FlatKeepsLabel(c, r0, flatAccess, name);
    FlatKeepsLabel(c, AddLabeled(c, r0, "", flatAccess).value, flatOption, name);
  }

  /** Active labels mean the keys they name, whatever the order, the flat fields and the other pointer.
      The one exception: an option label that names nothing may pick up the access key's own file. */
  lemma ActiveIsLabelled(
    c: Cipher, enc: EncConfig, disk: Disk, order: seq<string>, flatAccess: string, flatOption: string)
    requires Enumerates(order, enc.keys)
    ensures var r := Resolve(c, Some(enc), disk, order, flatAccess, flatOption);
            var labels := LabelsWithFolder(c, enc, disk);
            var (access, option) := (enc.secretKey, enc.optionKey);
            && (r.Some? && access.name != "" ==>
                access.name in labels && r.value.accessID == KeyID(c, labels[access.name]))
            && (r.Some? && option.name != "" ==>
                  if option.name in labels then r.value.optionID == KeyID(c, labels[option.name])
                  else access.name == "" && access.file == option.name && r.value.optionID == r.value.accessID)
  {
    ResolveIs(c, enc, disk, order, flatAccess, flatOption);
    var top := Registry(map[], Labels(disk, enc.keys));
    if Resolve(c, Some(enc), disk, order, flatAccess, flatOption).Some? {
      if enc.secretKey.name != "" {
        RestLabels(c, enc, disk, flatAccess, flatOption, enc.secretKey.name);
      }
      if enc.optionKey.name != "" {
        RestLabels(c, enc, disk, flatAccess, flatOption, enc.optionKey.name);
      }
      PickNamed(c, enc, disk, LoadRest(c, enc, disk, top, flatAccess, flatOption).value, flatAccess, flatOption);
    }
  }

  lemma PickNamed(c: Cipher, enc: EncConfig, disk: Disk, reg: Registry, flatAccess: string, flatOption: string)
    requires PickActive(c, enc, disk, reg, flatAccess, flatOption).Some?
    ensures var ks := PickActive(c, enc, disk, reg, flatAccess, flatOption).value;
            var (access, option) := (enc.secretKey, enc.optionKey);
            && (access.name != "" ==> access.name in reg.byLabel && ks.accessID == KeyID(c, reg.byLabel[access.name]))
            && (option.name != "" ==>
                  if option.name in reg.byLabel then ks.optionID == KeyID(c, reg.byLabel[option.name])
                  else access.name == "" && access.file == option.name && ks.optionID == ks.accessID)
  {
  }
}
