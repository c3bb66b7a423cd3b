# Universal Configurator — a Dafny model

The Universal Configurator is an ESP32 Arduino class, `UniversalConfigurator`. It keeps a
device's configuration as one JSON text under the key `config` in the `Configuration`
namespace of the ESP32 `Preferences` store. It exposes that text through one BLE
characteristic that peers can read, write and be notified on. It also creates and keeps
the service and characteristic UUIDs in a second namespace, `BLEUUIDs`.

This project models that class as pure functions over an immutable device state:

- `Configurator.Device` is the state: the store, the characteristic's text, the connection
  flag, the lookup cache `configMap`, and counts of notifications and advertising starts.
- Each member function of the class is a function from that state and its arguments to
  the new state and its result.
- The radio stack is reduced to those effects, and the random source to parameters.
- The two JSON libraries stay abstract: the configuration merge uses Arduino_JSON, and
  ArduinoJson validates peer writes and fills the cache. `Json.JsonLibs` holds them as
  functions. The facts the proofs need about them are the predicates `Json.RoundTrips`
  and `Json.ReadsSerialised`, which the relevant lemmas require.

Modules:

| file | module | what |
|---|---|---|
| `wrappers.dfy` | `Wrappers` | `Option` |
| `hex.dfy` | `Hex` | printf's `%0<width>X` and its inverse |
| `uuid.dfy` | `Uuid` | `generateUUID`: field arithmetic, the 8-4-4-4-12 layout, version 4 (section 4.4 of RFC 4122) |
| `preferences.dfy` | `Preferences` | the namespaced string store, with C-string truncation at a NUL |
| `json.dfy` | `Json` | the configuration document and the abstract JSON libraries |
| `configurator.dfy` | `Configurator` | the class's operations and the device state |
| `callbacks.dfy` | `Callbacks` | `isDeviceConnected` and the connect/disconnect callbacks |

The bit operations in `generateUUID` are written arithmetically on 32-bit unsigned words:
`x & (2^k-1)` is `x % 2^k`, `x >> k` is `x / 2^k`, and an `|` of disjoint bits is `+`.
The UUIDs stored by the rest of the model are `generateUUID`'s output as written
(`Configurator.NewUuid`). The corrected generator is modelled beside it (see Findings).

## Model

| member | source | states |
|---|---|---|
| `Hex.FormatHex` | Arduino_Code/Example/UCFG.cpp:10 | `%0<width>X` prints upper-case digits, zero-padded to at least `width`. A larger value is printed in full, never cut. The text reads back to the value. |
| `Uuid.Snprintf` | Arduino_Code/Example/UCFG.cpp:9-10 | the buffer keeps a prefix of the formatted text of at most `size - 1` characters |
| `Uuid.Fields` | Arduino_Code/Example/UCFG.cpp:11-16 | each printed field fits its group. The third group carries version nibble 4 (0x4000..0x4FFF). The fourth carries variant bits `10` (0x8000..0xBFFF). |
| `Uuid.RenderDecode` | Arduino_Code/Example/UCFG.cpp:10 | printing in-range groups at widths 8-4-4-4-12 gives canonical version-4 text, and reading that text back gives the same groups |
| `Uuid.GenerateUuid` | Arduino_Code/Example/UCFG.cpp:3-18 | as written, the output has 36 characters. It has hyphens at 8, 13, 18 and 23 and upper-case hex elsewhere. Index 14 is `4` and index 19 is one of `89AB`. It decodes to the printed fields, and the node group always starts `0000`. |
| `Uuid.NoTruncation` | Arduino_Code/Example/UCFG.cpp:9-10 | the formatted text is exactly 36 characters, so the 37-byte buffer never truncates it |
| `Uuid.FormattedIsRendered` | Arduino_Code/Example/UCFG.cpp:10-16 | every printed field fits the width its format gives it, so the formatted text is the canonical rendering of the printed fields, with `%08X%04X` making up one 12-digit node group |
| `Uuid.NodeGroupZeros` | Arduino_Code/Example/UCFG.cpp:10-15 | the node group of the as-written text always starts `0000`, because the 16-bit `part3 >> 16` is printed eight digits wide |
| `Uuid.GenerateUuidBits` | Arduino_Code/Example/UCFG.cpp:4-16 | two draws give the same text exactly when they agree on the printed bits. Bits 28..31 of `part2`, bits 14..15 of `part3` and bits 16..31 of `part4` never reach the output. |
| `Uuid.GenerateUuidV4` | Arduino_Code/Example/UCFG.cpp:3-18 | with the node-group format corrected, the output has the same canonical version-4 shape and decodes to fields holding all of `part4` |
| `Uuid.GenerateUuidV4Bits` | Arduino_Code/Example/UCFG.cpp:4-16 | with the corrected format, two draws give the same text exactly when their 122 random bits agree |
| `Uuid.CanonicalHasNoNul` | Arduino_Code/Example/UCFG.cpp:17 | canonical UUID text is non-empty and has no NUL, so turning the buffer into a `String` and storing it keeps all of it |
| `Preferences.CString` | Arduino_Code/Example/UCFG.cpp:136 | `c_str()` keeps the longest NUL-free prefix and stops at the first NUL. NUL-free text is kept whole. |
| `Preferences.GetString` | Arduino_Code/Example/UCFG.cpp:89 | `getString(key.c_str(), default)` returns the value stored under the key up to its first NUL, or the default when there is none. `getOrCreateUUID` reads the same way (line 22). |
| `Preferences.PutString` | Arduino_Code/Example/UCFG.cpp:82 | `putString` stores the value up to any NUL under the key up to any NUL, as `saveUUID` does too (line 34). Every key with that C string then reads the value. Keys with another C string, and other namespaces, read as before. |
| `Preferences.Clear` | Arduino_Code/Example/UCFG.cpp:128 | `clear` empties one namespace, so every key then reads its default. Other namespaces are kept. |
| `Configurator.PowerOn` | Arduino_Code/Example/UCFG.h:37 | at start-up no client is connected and the lookup cache is empty. The store is whatever was persisted. |
| `Configurator.NewUuid` | Arduino_Code/Example/UCFG.cpp:24 | a fresh identifier is `generateUUID`'s text as written: canonical version-4 text that decodes to the printed fields (`Uuid.Fields`) of the draw and holds no NUL |
| `Configurator.SaveUuid` | Arduino_Code/Example/UCFG.cpp:32-36 | `saveUUID` stores the UUID under the C string of its key in `BLEUUIDs`. Keys with another C string and other namespaces are unchanged. |
| `Configurator.GetOrCreateUuid` | Arduino_Code/Example/UCFG.cpp:20-30 | a stored non-empty UUID is returned with the store unchanged. Otherwise a fresh one is stored and returned. The result is always non-empty and stored under the key, and other keys and namespaces are unchanged. |
| `Configurator.GetOrCreateUuidStable` | Arduino_Code/Example/UCFG.cpp:22-26 | a second call returns the same UUID and leaves the store unchanged, whatever the random source gives |
| `Configurator.SaveToPreferences` | Arduino_Code/Example/UCFG.cpp:80-85 | `saveToPreferences` replaces the text under the C string of the key. Keys with another C string and other namespaces are unchanged. |
| `Configurator.ReadFromPreferences` | Arduino_Code/Example/UCFG.cpp:87-92 | `readFromPreferences` returns the text stored under the C string of the key in `Configuration`, and `""` when there is none. A NUL-free store gives NUL-free text. |
| `Configurator.SaveThenRead` | Arduino_Code/Example/UCFG.cpp:87-92 | saving NUL-free text and then reading it returns that text, and a key whose C string was never written reads `""` |
| `Configurator.SaveStored` | Arduino_Code/Example/UCFG.cpp:80-85 | saving the text already stored leaves the store exactly as it was |
| `Configurator.ReadOrInitPreferences` | Arduino_Code/Example/UCFG.cpp:94-101 | stored non-empty text is returned with no write. Otherwise `"{}"` is persisted and returned. The result is always what is now stored. |
| `Configurator.ClearPreferences` | Arduino_Code/Example/UCFG.cpp:126-131 | after `clearPreferences` every `Configuration` key reads `""`, and `BLEUUIDs` is unchanged |
| `Configurator.ClearThenReadOrInit` | Arduino_Code/Example/UCFG.cpp:94-99 | after a clear, the next lazy read returns and persists `"{}"` |
| `Configurator.Upsert` | Arduino_Code/Example/UCFG.cpp:107-117 | the parameter gets the given `value`, `description` and `type`. An existing record keeps its other fields; a new record has exactly those three. Other parameters are unchanged and none is removed. |
| `Configurator.UpsertIdempotent` | Arduino_Code/Example/UCFG.cpp:107-117 | merging the same parameter twice gives the same document as merging it once |
| `Configurator.MergeArguments` | Arduino_Code/Example/UCFG.cpp:107-116 | the JSONVar assignments put each `String` argument into the document up to its first NUL. The parameter (so cut) gets the three fields, and no other parameter is added. Other parameters are unchanged, and an existing record keeps its other fields; a new record has exactly the three. For NUL-free arguments this is the plain merge. |
| `Configurator.InitConfig` | Arduino_Code/Example/UCFG.cpp:102-124 | if the read-or-initialised text does not parse, only the `"{}"` initialisation is written. If it parses, the serialised merged document is saved. Other keys and other namespaces are unchanged. |
| `Configurator.InitConfigMerges` | Arduino_Code/Example/UCFG.cpp:103-118 | given a faithful serialiser, the stored text afterwards parses to the merge of the previous document |
| `Configurator.InitConfigIdempotent` | Arduino_Code/Example/UCFG.cpp:102-124 | given a faithful serialiser, calling `initConfig` twice with the same arguments stores the same as calling it once |
| `Configurator.ClientWrite` | Arduino_Code/Example/UCFG.cpp:49-54 | a peer's write replaces the characteristic's text. The store, the connection flag, the lookup cache and the notification and advertising counts are unchanged. |
| `Configurator.GetConfig` | Arduino_Code/Example/UCFG.cpp:134-149 | an empty characteristic gives no write. Text that ArduinoJson rejects leaves the store unchanged and returns the prior stored text. Accepted text is stored verbatim and returned. The result always equals the stored config, and only the store can change. |
| `Configurator.GetConfigIdempotent` | Arduino_Code/Example/UCFG.cpp:134-149 | the characteristic is never cleared, so a repeated `getConfig` changes nothing more and returns the same text |
| `Configurator.MalformedWriteRejected` | Arduino_Code/Example/UCFG.cpp:139-144 | a peer write that ArduinoJson rejects is never stored, and the previous document is returned |
| `Configurator.CommitOverridesInitConfig` | Arduino_Code/Example/UCFG.cpp:145 | while the characteristic holds accepted text, a `getConfig` after `initConfig` stores that text again, so the merge is lost |
| `Configurator.SendConfig` | Arduino_Code/Example/UCFG.cpp:68-78 | without a client nothing changes. With one, the store is what `getConfig` leaves and exactly one notification is sent. The characteristic then equals the stored config. |
| `Configurator.SendConfigSettles` | Arduino_Code/Example/UCFG.cpp:69-72 | after one send, further sends leave the store and the characteristic as they are and add one notification each |
| `Configurator.ParseConfig` | Arduino_Code/Example/UCFG.cpp:151-172 | an empty or unreadable stored config leaves the cache unchanged. Otherwise every document key gets its `value` field, and cache keys not in the document keep their old entries. Nothing but the cache changes. |
| `Configurator.GetConfigValue` | Arduino_Code/Example/UCFG.cpp:174-180 | `getConfigValue` returns the cached value of a parameter in the cache, and `""` for any other parameter |
| `Configurator.ParseThenLookup` | Arduino_Code/Example/UCFG.cpp:174-180 | after `parseConfig`, `getConfigValue` returns the document's value for a listed parameter. For any other parameter it returns the previous entry, or `""` when there was none. |
| `Configurator.InitConfigThenLookup` | Arduino_Code/Example/UCFG.cpp:167-171 | given faithful libraries, after `initConfig(p, v, ...)` and `parseConfig` the cache holds `v` up to any NUL under `p` up to any NUL. For NUL-free `p` and `v`, `getConfigValue(p)` returns `v`. |
| `Configurator.ResolveIdentifiers` | Arduino_Code/Example/UCFG.cpp:44-45 | the service identifier, then the characteristic identifier: each is the stored one, or `generateUUID`'s text from its own draw, which is then stored. Other `BLEUUIDs` keys and other namespaces are unchanged. |
| `Configurator.InitBle` | Arduino_Code/Example/UCFG.cpp:38-66 | both UUIDs are resolved or created: existing ones are kept, and a missing one is `generateUUID`'s text from its own draw. The new characteristic is seeded with the stored config, and advertising starts once. Other `BLEUUIDs` keys and every other namespace are unchanged. |
| `Configurator.IdentifiersSurviveRestart` | Arduino_Code/Example/UCFG.cpp:44-45 | bringing the device up again from what the first bring-up stored gives the same two UUIDs |
| `Callbacks.IsDeviceConnected` | Arduino_Code/Example/UCFG.h:28-30 | `isDeviceConnected` is true exactly when a client is connected |
| `Callbacks.OnConnect` | Arduino_Code/Example/UCFG.h:50-53 | `onConnect` sets the flag, and only the flag changes |
| `Callbacks.OnDisconnect` | Arduino_Code/Example/UCFG.h:55-59 | `onDisconnect` clears the flag and starts advertising exactly once. The store, characteristic, cache and notification count are unchanged. |
| `Callbacks.RunConnected` | Arduino_Code/Example/UCFG.h:28-30 | after any event sequence, `isDeviceConnected` is true exactly when the last event was a connect. With no events the flag is unchanged. |
| `Callbacks.RunEffects` | Arduino_Code/Example/UCFG.h:48-59 | a run of events starts advertising once per disconnect and changes nothing but the flag and that count |
| `Callbacks.ConnectedFromPowerOn` | Arduino_Code/Example/UCFG.h:37 | from power-on, a client is connected exactly when the latest event was a connect. With no events it is `false`. |

## Left out

- BLE plumbing is not modelled: device and server creation, the service, the BLE2902 descriptor and client subscription through it, the cut of a notified value to the negotiated MTU, and real advertising and notification (UCFG.cpp:39-55, 60-61, 72 and UCFG.h:58). Only their effects are kept: the characteristic's text, `notifies`, which counts the calls to `notify()`, and `advertStarts`, which counts the calls that start advertising.
- Serial logging is not modelled. It is diagnostic only.
- `esp_random` is a hardware source. The four words it returns are parameters (`Configurator.Draw`).
- JSON parsing and serialisation are abstract functions, not modelled. This covers Arduino_JSON's `JSON.parse`, `JSON.typeof` and `JSON.stringify`, and ArduinoJson's `deserializeJson`. It also covers its 1024-byte and `length * 2` document capacities, the `as<String>()` value conversion, and what happens when the root is not an object. Arduino_JSON and ArduinoJson are separate functions, because they may accept different texts.
- `Configurator.InitConfigMerges`, `Configurator.InitConfigIdempotent` and `Configurator.InitConfigThenLookup` hold only for JSON libraries that satisfy `Json.RoundTrips` (and `Json.ReadsSerialised`). Those predicates are stated, not derived from the libraries.
- Preferences open modes are not modelled. In particular, `saveUUID` opens `BLEUUIDs` for writing while `getOrCreateUUID` still holds it open read-only. The store here is a plain map that accepts every write, and it has no limit on key length. What the ESP32 library does with a nested `begin` or with the 18-character key `characteristicUUID` is not part of this model.
- Concurrency is not modelled. BLE callbacks and the main loop may interleave, but every operation is atomic here.
- The model always has a characteristic. `getConfig` is called from `initBLE` after the characteristic exists (UCFG.cpp:57), and from `sendConfig` only while a client is connected (UCFG.cpp:69-70). A client can connect only after `initBLE` has installed the callbacks (UCFG.cpp:42), so the characteristic always exists when `getConfig` runs.
- `applySettings` and `getConfigJSON` are declared in UCFG.h:20 and UCFG.h:25 but have no body, so they are not modelled. `configMap`, `getConfig`, `parseConfig` and `getConfigValue` are not declared in the header. They are modelled as members, as UCFG.cpp defines them.
- `Configurator.ParseConfig` only inserts and overwrites cache entries (UCFG.cpp:167-171) and never clears the cache, so entries for parameters that have left the document survive.
- `Configurator.GetConfig` stores the characteristic's text up to its first NUL, because `c_str()` (UCFG.cpp:136) and `putString` stop there.

## Findings

| source | as written | input that shows it | evidently intended | confidence | as-written member | corrected member |
|---|---|---|---|---|---|---|
| Arduino_Code/Example/UCFG.cpp:10-16 | The node group is printed with `%08X%04X` from `part3 >> 16` and `part4 & 0xFFFF`. `part3 >> 16` is below 2^16, so its eight-digit field always starts `0000`, and the 12-digit node group carries only 32 random bits. | any draw, for example all four words `0xFFFFFFFF`, gives node group `0000FFFFFFFF` | `%04X%08X` with `part3 >> 16` and all of `part4`, so that the node group carries 48 random bits and the UUID carries 122 (section 4.4 of RFC 4122) | high; not executed | `Uuid.GenerateUuid` (ensures `u[24..28] == "0000"`), `Uuid.GenerateUuidBits` | `Uuid.GenerateUuidV4`, `Uuid.GenerateUuidV4Bits` |
