/**
 The `UniversalConfigurator` object: identifiers kept in the `BLEUUIDs`
 namespace, the configuration document kept under `config` in the
 `Configuration` namespace, the one read/write/notify characteristic, the
 connection flag and the in-memory lookup cache. Each member function of the
 class is a function from the device state (and its arguments) to the new
 state and its result. The radio stack is reduced to its effects: the
 characteristic's text, a count of notifications and a count of advertising
 starts.
 */
module Configurator {
  import opened Wrappers
  import opened Preferences
  import opened Json
  import Uuid

  const UuidNamespace := "BLEUUIDs"
  const ConfigNamespace := "Configuration"
  const ConfigKey := "config"
  const ServiceUuidKey := "serviceUUID"
  const CharacteristicUuidKey := "characteristicUUID"
  /** What `readOrInitPreferences` stores when there is no document yet. */
  const EmptyDocument := "{}"

  /** The keys the class passes are literals with no NUL, so `c_str()` keeps them whole. */
  lemma LiteralKeys()
    ensures CString(ConfigKey) == ConfigKey
    ensures CString(ServiceUuidKey) == ServiceUuidKey && CString(CharacteristicUuidKey) == CharacteristicUuidKey
    ensures ServiceUuidKey != CharacteristicUuidKey
  {
    assert Nul !in ConfigKey && Nul !in ServiceUuidKey && Nul !in CharacteristicUuidKey;
  }

  /** Four successive values of the hardware random source. */
  datatype Draw = Draw(p1: Uuid.Word, p2: Uuid.Word, p3: Uuid.Word, p4: Uuid.Word)

  /** The state of one configurator. */
  datatype Device = Device(
    store: Store,                     // the persistent namespaces
    characteristic: string,           // the characteristic's current value
    connected: bool,                  // `deviceConnected`
    configMap: map<string, string>,   // the lookup cache
    notifies: nat,                    // notifications sent so far
    advertStarts: nat                 // times advertising was started
  )

  /** The state at power-on: what the store persisted, no client, an empty cache. */
  function PowerOn(store: Store): (d: Device)
    ensures d.store == store && !d.connected && d.configMap == map[]
  {
    Device(store, "", false, map[], 0, 0)
  }

  // ---------------------------------------------------------------------------
  // Identity store

  /**
   A fresh identifier from one draw, as `generateUUID` writes it: canonical
   version-4 text that reads back to the printed fields, with no NUL to cut it
   short when stored.
   */
  function NewUuid(draw: Draw): (u: string)
    ensures Uuid.IsCanonical(u) && Uuid.IsVersion4(u)
    ensures Uuid.Decode(u) == Uuid.Fields(draw.p1, draw.p2, draw.p3, draw.p4)
    ensures u != "" && Nul !in u
  {
    var u := Uuid.GenerateUuid(draw.p1, draw.p2, draw.p3, draw.p4);
    Uuid.CanonicalHasNoNul(u);
    u
  }

  /** The identifier stored under `key`, or "" if there is none. */
  function StoredUuid(st: Store, key: string): string {
    GetString(st, UuidNamespace, key, "")
  }

  /**
   `saveUUID`: stores `uuid` under `key` in `BLEUUIDs`, so every key with the
   same C string reads it back; nothing else changes.
   */
  function SaveUuid(st: Store, key: string, uuid: string): (r: Store)
    ensures forall k :: CString(k) == CString(key) ==> StoredUuid(r, k) == CString(uuid)
    ensures forall k :: CString(k) != CString(key) ==> StoredUuid(r, k) == StoredUuid(st, k)
    ensures forall ns :: ns != UuidNamespace ==> Space(r, ns) == Space(st, ns)
    ensures NulFree(st) ==> NulFree(r)
  {
    PutString(st, UuidNamespace, key, uuid)
  }

  /**
   `getOrCreateUUID`: a non-empty stored identifier is returned as it is, with the
   store untouched; otherwise a fresh one is stored under `key` and returned.
   Either way the result is what the store now holds under `key`.
   */
  function GetOrCreateUuid(st: Store, key: string, draw: Draw): (r: (Store, string))
    ensures r.1 != "" && StoredUuid(r.0, key) == r.1
    ensures StoredUuid(st, key) != "" ==> r == (st, StoredUuid(st, key))
    ensures StoredUuid(st, key) == "" ==> r.1 == NewUuid(draw)
    ensures forall k :: CString(k) != CString(key) ==> StoredUuid(r.0, k) == StoredUuid(st, k)
    ensures forall ns :: ns != UuidNamespace ==> Space(r.0, ns) == Space(st, ns)
    ensures NulFree(st) ==> NulFree(r.0)
  {
    var uuid := StoredUuid(st, key);
    if uuid != "" then
      (st, uuid)
    else
      var created := NewUuid(draw);
      (SaveUuid(st, key, created), created)
  }

  /** Once created, an identifier is returned again by every later call, whatever the random source gives. */
  lemma GetOrCreateUuidStable(st: Store, key: string, first: Draw, later: Draw)
    ensures var (st1, u1) := GetOrCreateUuid(st, key, first);
            GetOrCreateUuid(st1, key, later) == (st1, u1)
  {
  }

  // ---------------------------------------------------------------------------
  // Configuration store

  /** `readFromPreferences`: the text under the C string of `key` in `Configuration`, or "" when absent. */
  function ReadFromPreferences(st: Store, key: string): (text: string)
    ensures CString(key) in Space(st, ConfigNamespace) ==> text == Space(st, ConfigNamespace)[CString(key)]
    ensures CString(key) !in Space(st, ConfigNamespace) ==> text == ""
    ensures NulFree(st) ==> Nul !in text
  {
    GetString(st, ConfigNamespace, key, "")
  }

  /**
   `saveToPreferences`: `text` (up to any NUL) replaces what was under `key` (up to
   any NUL), so every key with the same C string reads it back; nothing else changes.
   */
  function SaveToPreferences(st: Store, key: string, text: string): (r: Store)
    ensures forall k :: CString(k) == CString(key) ==> ReadFromPreferences(r, k) == CString(text)
    ensures forall k :: CString(k) != CString(key) ==> ReadFromPreferences(r, k) == ReadFromPreferences(st, k)
    ensures forall ns :: ns != ConfigNamespace ==> Space(r, ns) == Space(st, ns)
    ensures NulFree(st) ==> NulFree(r)
  {
    PutString(st, ConfigNamespace, key, text)
  }

  /** Saving then reading returns the saved text; a key never written reads as "". */
  lemma SaveThenRead(st: Store, key: string, text: string, absent: string)
    requires Nul !in text
    requires CString(absent) !in Space(st, ConfigNamespace)
    ensures ReadFromPreferences(SaveToPreferences(st, key, text), key) == text
    ensures ReadFromPreferences(st, absent) == ""
  {
  }

  /** Saving what is already stored leaves the store exactly as it was. */
  lemma SaveStored(st: Store, key: string)
    requires CString(key) in Space(st, ConfigNamespace) && Nul !in ReadFromPreferences(st, key)
    ensures SaveToPreferences(st, key, ReadFromPreferences(st, key)) == st
  {
    var text := ReadFromPreferences(st, key);
    assert Space(st, ConfigNamespace)[CString(key) := text] == Space(st, ConfigNamespace);
  }

  /**
   `readOrInitPreferences`: stored non-empty text is returned unchanged; otherwise
   `"{}"` is persisted and returned. The result is always what is stored.
   */
  function ReadOrInitPreferences(st: Store): (r: (Store, string))
    ensures ReadFromPreferences(st, ConfigKey) != "" ==> r == (st, ReadFromPreferences(st, ConfigKey))
    ensures ReadFromPreferences(st, ConfigKey) == "" ==>
              r == (SaveToPreferences(st, ConfigKey, EmptyDocument), EmptyDocument)
    ensures r.1 != "" && ReadFromPreferences(r.0, ConfigKey) == r.1
  {
    var text := ReadFromPreferences(st, ConfigKey);
    if text == "" then
      (SaveToPreferences(st, ConfigKey, EmptyDocument), EmptyDocument)
    else
      (st, text)
  }

  /** `clearPreferences`: every `Configuration` key reads "" afterwards; other namespaces are kept. */
  function ClearPreferences(st: Store): (r: Store)
    ensures forall k :: ReadFromPreferences(r, k) == ""
    ensures forall ns :: ns != ConfigNamespace ==> Space(r, ns) == Space(st, ns)
    ensures NulFree(st) ==> NulFree(r)
  {
    Clear(st, ConfigNamespace)
  }

  /** After a clear, the next lazy read initialises and persists the empty document. */
  lemma ClearThenReadOrInit(st: Store)
    ensures var r := ReadOrInitPreferences(ClearPreferences(st));
            r.1 == EmptyDocument && ReadFromPreferences(r.0, ConfigKey) == EmptyDocument
  {
  }

  // ---------------------------------------------------------------------------
  // Document merge

  /** The three fields `initConfig` writes. */
  predicate IsParameterField(f: string) {
    f == ValueField || f == DescriptionField || f == TypeField
  }

  /**
   The merge step of `initConfig`: an existing record has its three fields
   overwritten in place (any other fields stay); a missing one is added with
   exactly those three fields. Other parameters are untouched and none is removed.
   */
  function Upsert(doc: Document, param: string, value: string, description: string, kind: string): (r: Document)
    ensures r.Keys == doc.Keys + {param}
    ensures ValueField in r[param] && DescriptionField in r[param] && TypeField in r[param]
    ensures r[param][ValueField] == value && r[param][DescriptionField] == description
    ensures r[param][TypeField] == kind
    ensures param !in doc ==> r[param].Keys == {ValueField, DescriptionField, TypeField}
    ensures param in doc ==> r[param].Keys == doc[param].Keys + {ValueField, DescriptionField, TypeField}
    ensures param in doc ==> forall f :: f in doc[param] && !IsParameterField(f) ==> r[param][f] == doc[param][f]
    ensures forall q :: q in doc && q != param ==> r[q] == doc[q]
  {
    if param in doc then
      doc[param := doc[param][ValueField := value][DescriptionField := description][TypeField := kind]]
    else
      doc[param := map[ValueField := value, DescriptionField := description, TypeField := kind]]
  }

  /** Merging the same parameter twice gives the same document as merging it once. */
  lemma UpsertIdempotent(doc: Document, param: string, value: string, description: string, kind: string)
    ensures var once := Upsert(doc, param, value, description, kind);
            Upsert(once, param, value, description, kind) == once
  {
    var once := Upsert(doc, param, value, description, kind);
    var twice := Upsert(once, param, value, description, kind);
    assert twice[param] == once[param];
  }

  /**
   The merge `initConfig` performs with its four `String` arguments. Arduino_JSON
   takes a `String` key or value through `c_str()`, so each argument enters the
   document up to its first NUL.
   */
  function MergeArguments(doc: Document, param: string, value: string, description: string, kind: string): (r: Document)
    ensures r.Keys == doc.Keys + {CString(param)}
    ensures ValueField in r[CString(param)] && r[CString(param)][ValueField] == CString(value)
    ensures DescriptionField in r[CString(param)] && r[CString(param)][DescriptionField] == CString(description)
    ensures TypeField in r[CString(param)] && r[CString(param)][TypeField] == CString(kind)
    ensures CString(param) !in doc ==> r[CString(param)].Keys == {ValueField, DescriptionField, TypeField}
    ensures CString(param) in doc ==>
              r[CString(param)].Keys == doc[CString(param)].Keys + {ValueField, DescriptionField, TypeField}
    ensures CString(param) in doc ==>
              forall f :: f in doc[CString(param)] && !IsParameterField(f) ==> r[CString(param)][f] == doc[CString(param)][f]
    ensures forall q :: q in doc && q != CString(param) ==> r[q] == doc[q]
    ensures Nul !in param + value + description + kind ==> r == Upsert(doc, param, value, description, kind)
  {
    Upsert(doc, CString(param), CString(value), CString(description), CString(kind))
  }

  /**
   `initConfig`: reads (or initialises) the stored document; if it parses, the
   merged document is serialised and saved. If it does not parse, the store is
   left as the read left it.
   */
  function InitConfig(st: Store, libs: JsonLibs, param: string, value: string, description: string, kind: string): (r: Store)
    ensures var (st1, text) := ReadOrInitPreferences(st);
            match libs.parse(text)
            case None => r == st1
            case Some(doc) =>
              ReadFromPreferences(r, ConfigKey) == CString(libs.stringify(MergeArguments(doc, param, value, description, kind)))
    ensures forall k :: CString(k) != ConfigKey ==> ReadFromPreferences(r, k) == ReadFromPreferences(st, k)
    ensures forall ns :: ns != ConfigNamespace ==> Space(r, ns) == Space(st, ns)
    ensures NulFree(st) ==> NulFree(r)
  {
    LiteralKeys();
    var (st1, text) := ReadOrInitPreferences(st);
    match libs.parse(text)
    case None => st1
    case Some(doc) =>
      SaveToPreferences(st1, ConfigKey, libs.stringify(MergeArguments(doc, param, value, description, kind)))
  }

  /**
   With a faithful serialiser, after `initConfig` the stored document parses to
   the merge of the previous one: `param` holds the three given fields and every
   other parameter is as it was.
   */
  lemma InitConfigMerges(st: Store, libs: JsonLibs, param: string, value: string, description: string, kind: string)
    requires RoundTrips(libs)
    requires libs.parse(ReadOrInitPreferences(st).1).Some?
    ensures var doc := libs.parse(ReadOrInitPreferences(st).1).value;
            var r := InitConfig(st, libs, param, value, description, kind);
            libs.parse(ReadFromPreferences(r, ConfigKey)) == Some(MergeArguments(doc, param, value, description, kind))
  {
    var doc := libs.parse(ReadOrInitPreferences(st).1).value;
    var merged := MergeArguments(doc, param, value, description, kind);
    assert Nul !in libs.stringify(merged) && libs.parse(libs.stringify(merged)) == Some(merged);
  }

  /** Calling `initConfig` twice with the same arguments stores the same as calling it once. */
  lemma {:induction false} InitConfigIdempotent(st: Store, libs: JsonLibs, param: string, value: string, description: string, kind: string)
    requires RoundTrips(libs)
    ensures var once := InitConfig(st, libs, param, value, description, kind);
            InitConfig(once, libs, param, value, description, kind) == once
  {
    var (st1, text) := ReadOrInitPreferences(st);
    var once := InitConfig(st, libs, param, value, description, kind);
    match libs.parse(text)
    case None =>
      assert ReadOrInitPreferences(once) == (st1, text);
    case Some(doc) =>
      var merged := MergeArguments(doc, param, value, description, kind);
      var saved := libs.stringify(merged);
      assert saved != "" && Nul !in saved && libs.parse(saved) == Some(merged);
      assert ReadFromPreferences(once, ConfigKey) == saved;
      assert ReadOrInitPreferences(once) == (once, saved);
      UpsertIdempotent(doc, CString(param), CString(value), CString(description), CString(kind));
      SaveStored(once, ConfigKey);
  }

  // ---------------------------------------------------------------------------
  // Transport endpoint

  /** The BLE stack stores a client's write as the characteristic's value. */
  function ClientWrite(dev: Device, data: string): (r: Device)
    ensures r.characteristic == data && r.store == dev.store && r.connected == dev.connected
    ensures r.configMap == dev.configMap && r.notifies == dev.notifies && r.advertStarts == dev.advertStarts
  {
    dev.(characteristic := data)
  }

  /**
   `getConfig`: a non-empty characteristic value that ArduinoJson accepts is
   committed verbatim (up to any NUL) as the stored document; a rejected one
   changes nothing. The result is always the stored document afterwards, and
   only the store can change.
   */
  function GetConfig(dev: Device, libs: JsonLibs): (r: (Device, string))
    ensures r.0 == dev.(store := r.0.store)
    ensures r.1 == ReadFromPreferences(r.0.store, ConfigKey)
    ensures dev.characteristic == "" ==> r.0 == dev
    ensures dev.characteristic != "" && !libs.accepts(CString(dev.characteristic)) ==> r.0 == dev
    ensures dev.characteristic != "" && libs.accepts(CString(dev.characteristic)) ==>
              r.0.store == SaveToPreferences(dev.store, ConfigKey, dev.characteristic)
              && r.1 == CString(dev.characteristic)
    ensures forall k :: CString(k) != ConfigKey ==> ReadFromPreferences(r.0.store, k) == ReadFromPreferences(dev.store, k)
    ensures forall ns :: ns != ConfigNamespace ==> Space(r.0.store, ns) == Space(dev.store, ns)
    ensures NulFree(dev.store) ==> NulFree(r.0.store)
  {
    if |dev.characteristic| > 0 then
      var received := CString(dev.characteristic);
      if !libs.accepts(received) then
        (dev, ReadFromPreferences(dev.store, ConfigKey))
      else
        var st := SaveToPreferences(dev.store, ConfigKey, received);
        assert st == SaveToPreferences(dev.store, ConfigKey, dev.characteristic);
        LiteralKeys();
        (dev.(store := st), ReadFromPreferences(st, ConfigKey))
    else
      (dev, ReadFromPreferences(dev.store, ConfigKey))
  }

  /** The characteristic is never cleared, so a second `getConfig` commits nothing new. */
  lemma {:induction false} GetConfigIdempotent(dev: Device, libs: JsonLibs)
    ensures var (d1, s1) := GetConfig(dev, libs);
            GetConfig(d1, libs) == (d1, s1)
  {
    var (d1, s1) := GetConfig(dev, libs);
    if dev.characteristic != "" && libs.accepts(CString(dev.characteristic)) {
      SaveStored(d1.store, ConfigKey);
      assert d1.store == SaveToPreferences(d1.store, ConfigKey, CString(dev.characteristic));
    }
  }

  /** A client write that ArduinoJson rejects is never stored, and reads return the previous document. */
  lemma MalformedWriteRejected(dev: Device, libs: JsonLibs, data: string)
    requires data != "" && !libs.accepts(CString(data))
    ensures var (d1, s1) := GetConfig(ClientWrite(dev, data), libs);
            d1.store == dev.store && s1 == ReadFromPreferences(dev.store, ConfigKey)
  {
  }

  /**
   Commit-on-read undoes host updates: while the characteristic holds accepted
   text, a `getConfig` after an `initConfig` puts that text back, whatever the
   merge stored.
   */
  lemma CommitOverridesInitConfig(dev: Device, libs: JsonLibs, param: string, value: string, description: string, kind: string)
    requires dev.characteristic != "" && libs.accepts(CString(dev.characteristic))
    ensures var updated := dev.(store := InitConfig(dev.store, libs, param, value, description, kind));
            var (d1, s1) := GetConfig(updated, libs);
            s1 == CString(dev.characteristic) == ReadFromPreferences(d1.store, ConfigKey)
  {
  }

  /**
   `sendConfig`: without a client nothing happens. With one, the document from
   `getConfig` becomes the characteristic's value and exactly one notification
   is sent; the characteristic then equals the stored document.
   */
  function SendConfig(dev: Device, libs: JsonLibs): (r: Device)
    ensures !dev.connected ==> r == dev
    ensures dev.connected ==>
              && r.store == GetConfig(dev, libs).0.store
              && r.notifies == dev.notifies + 1
              && r.connected && r.configMap == dev.configMap && r.advertStarts == dev.advertStarts
    ensures dev.connected && NulFree(dev.store) ==> r.characteristic == ReadFromPreferences(r.store, ConfigKey)
    ensures NulFree(dev.store) ==> NulFree(r.store)
  {
    if !dev.connected then
      dev
    else
      var (d1, data) := GetConfig(dev, libs);
      d1.(characteristic := CString(data), notifies := d1.notifies + 1)
  }

  /** Once a send has echoed the stored document, further sends leave the store as it is. */
  lemma {:induction false} SendConfigSettles(dev: Device, libs: JsonLibs)
    requires dev.connected && NulFree(dev.store)
    ensures var once := SendConfig(dev, libs);
            var twice := SendConfig(once, libs);
            twice.store == once.store && twice.characteristic == once.characteristic
            && twice.notifies == once.notifies + 1
  {
    var once := SendConfig(dev, libs);
    var text := ReadFromPreferences(once.store, ConfigKey);
    assert once.characteristic == text && Nul !in text;
    if text != "" && libs.accepts(text) {
      assert key_present: ConfigKey in Space(once.store, ConfigNamespace);
      SaveStored(once.store, ConfigKey);
    }
  }

  // ---------------------------------------------------------------------------
  // Lookup cache

  /**
   `parseConfig`: when the stored document is non-empty and ArduinoJson reads it,
   each parameter's value is written into the cache over any older entry. The
   cache is never cleared, so entries for parameters no longer in the document
   stay. Otherwise nothing changes.
   */
  function ParseConfig(dev: Device, libs: JsonLibs): (r: Device)
    ensures r == dev.(configMap := r.configMap)
    ensures var text := ReadFromPreferences(dev.store, ConfigKey);
            text == "" || libs.valueFields(text).None? ==> r == dev
    ensures var text := ReadFromPreferences(dev.store, ConfigKey);
            text != "" && libs.valueFields(text).Some? ==>
              var m := libs.valueFields(text).value;
              && r.configMap.Keys == dev.configMap.Keys + m.Keys
              && (forall k :: k in m ==> r.configMap[k] == m[k])
              && (forall k :: k in dev.configMap && k !in m ==> r.configMap[k] == dev.configMap[k])
  {
    var text := ReadFromPreferences(dev.store, ConfigKey);
    if text == "" then
      dev
    else
      match libs.valueFields(text)
      case None => dev
      case Some(m) => dev.(configMap := dev.configMap + m)
  }

  /** `getConfigValue`: the cached value for `param`, or "" when it is not cached. */
  function GetConfigValue(dev: Device, param: string): (value: string)
    ensures param in dev.configMap ==> value == dev.configMap[param]
    ensures param !in dev.configMap ==> value == ""
  {
    if param in dev.configMap then dev.configMap[param] else ""
  }

  /**
   Looking up after `parseConfig` finds the document's value for a parameter it
   lists, and the previous cache entry (or "") for any other.
   */
  lemma ParseThenLookup(dev: Device, libs: JsonLibs, param: string)
    requires ReadFromPreferences(dev.store, ConfigKey) != ""
    requires libs.valueFields(ReadFromPreferences(dev.store, ConfigKey)).Some?
    ensures var m := libs.valueFields(ReadFromPreferences(dev.store, ConfigKey)).value;
            GetConfigValue(ParseConfig(dev, libs), param)
              == if param in m then m[param] else GetConfigValue(dev, param)
  {
  }

  /**
   End to end on the host side: after `initConfig(param, value, ...)` on a
   readable document and a `parseConfig`, the cache holds `value` (up to any NUL)
   under `param` (up to any NUL); for NUL-free arguments `getConfigValue(param)`
   is `value`.
   */
  lemma InitConfigThenLookup(dev: Device, libs: JsonLibs, param: string, value: string, description: string, kind: string)
    requires RoundTrips(libs) && ReadsSerialised(libs)
    requires libs.parse(ReadOrInitPreferences(dev.store).1).Some?
    ensures var updated := dev.(store := InitConfig(dev.store, libs, param, value, description, kind));
            GetConfigValue(ParseConfig(updated, libs), CString(param)) == CString(value)
    ensures Nul !in param && Nul !in value ==>
            var updated := dev.(store := InitConfig(dev.store, libs, param, value, description, kind));
            GetConfigValue(ParseConfig(updated, libs), param) == value
  {
    var doc := libs.parse(ReadOrInitPreferences(dev.store).1).value;
    var merged := MergeArguments(doc, param, value, description, kind);
    var saved := libs.stringify(merged);
    assert saved != "" && Nul !in saved;
    var updated := dev.(store := InitConfig(dev.store, libs, param, value, description, kind));
    assert ReadFromPreferences(updated.store, ConfigKey) == saved;
    assert libs.valueFields(saved).Some? && HoldsValues(libs.valueFields(saved).value, merged);
  }

  // ---------------------------------------------------------------------------
  // Bring-up

  /**
   The two `getOrCreateUUID` calls of `initBLE`, service first: each identifier is
   the stored one, or a fresh one from its own draw that is then stored. Other
   `BLEUUIDs` keys and other namespaces are unchanged.
   */
  function ResolveIdentifiers(st: Store, serviceDraw: Draw, characteristicDraw: Draw): (r: (Store, string, string))
    ensures StoredUuid(r.0, ServiceUuidKey) == r.1 != ""
    ensures StoredUuid(r.0, CharacteristicUuidKey) == r.2 != ""
    ensures StoredUuid(st, ServiceUuidKey) != "" ==> r.1 == StoredUuid(st, ServiceUuidKey)
    ensures StoredUuid(st, CharacteristicUuidKey) != "" ==> r.2 == StoredUuid(st, CharacteristicUuidKey)
    ensures StoredUuid(st, ServiceUuidKey) == "" ==> r.1 == NewUuid(serviceDraw)
    ensures StoredUuid(st, CharacteristicUuidKey) == "" ==> r.2 == NewUuid(characteristicDraw)
    ensures forall k :: CString(k) != ServiceUuidKey && CString(k) != CharacteristicUuidKey ==>
              StoredUuid(r.0, k) == StoredUuid(st, k)
    ensures forall ns :: ns != UuidNamespace ==> Space(r.0, ns) == Space(st, ns)
    ensures NulFree(st) ==> NulFree(r.0)
  {
    LiteralKeys();
    var (st1, service) := GetOrCreateUuid(st, ServiceUuidKey, serviceDraw);
    assert StoredUuid(st1, CharacteristicUuidKey) == StoredUuid(st, CharacteristicUuidKey);
    var (st2, characteristic) := GetOrCreateUuid(st1, CharacteristicUuidKey, characteristicDraw);
    assert StoredUuid(st2, ServiceUuidKey) == service;
    (st2, service, characteristic)
  }

  /**
   The storage and seeding steps of `initBLE`: resolve (or create) the service
   and characteristic identifiers, create the characteristic with no value, seed
   it with the stored document through `getConfig`, and start advertising.
   Returns the new state and the two identifiers.
   */
  function InitBle(dev: Device, libs: JsonLibs, serviceDraw: Draw, characteristicDraw: Draw): (r: (Device, string, string))
    ensures StoredUuid(r.0.store, ServiceUuidKey) == r.1 != ""
    ensures StoredUuid(r.0.store, CharacteristicUuidKey) == r.2 != ""
    ensures StoredUuid(dev.store, ServiceUuidKey) != "" ==> r.1 == StoredUuid(dev.store, ServiceUuidKey)
    ensures StoredUuid(dev.store, CharacteristicUuidKey) != "" ==> r.2 == StoredUuid(dev.store, CharacteristicUuidKey)
    ensures StoredUuid(dev.store, ServiceUuidKey) == "" ==> r.1 == NewUuid(serviceDraw)
    ensures StoredUuid(dev.store, CharacteristicUuidKey) == "" ==> r.2 == NewUuid(characteristicDraw)
    ensures forall k :: CString(k) != ServiceUuidKey && CString(k) != CharacteristicUuidKey ==>
              StoredUuid(r.0.store, k) == StoredUuid(dev.store, k)
    ensures forall ns :: ns != UuidNamespace ==> Space(r.0.store, ns) == Space(dev.store, ns)
    ensures Space(r.0.store, ConfigNamespace) == Space(dev.store, ConfigNamespace)
    ensures NulFree(dev.store) ==> r.0.characteristic == ReadFromPreferences(r.0.store, ConfigKey)
    ensures r.0.advertStarts == dev.advertStarts + 1
    ensures r.0.connected == dev.connected && r.0.notifies == dev.notifies && r.0.configMap == dev.configMap
    ensures NulFree(dev.store) ==> NulFree(r.0.store)
  {
    var (st2, service, characteristic) := ResolveIdentifiers(dev.store, serviceDraw, characteristicDraw);
    var created := dev.(store := st2, characteristic := "");
    var (d3, initial) := GetConfig(created, libs);
    (d3.(characteristic := CString(initial), advertStarts := d3.advertStarts + 1), service, characteristic)
  }

  /**
   Identifiers survive a restart: bringing the device up again from what the
   first bring-up persisted gives the same two identifiers, whatever the random
   source gives the second time.
   */
  lemma IdentifiersSurviveRestart(st: Store, libs: JsonLibs, a: Draw, b: Draw, c: Draw, d: Draw)
    ensures var (d1, s1, c1) := InitBle(PowerOn(st), libs, a, b);
            var (d2, s2, c2) := InitBle(PowerOn(d1.store), libs, c, d);
            s2 == s1 && c2 == c1
  {
  }
}
