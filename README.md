# Status request and connect packet of an online multiplayer server

This project models two parts of a game server for online play, written in C#, and proves properties of the model in Dafny.

**The status request.** This JSON API call reports two things, each cut down to what the caller's permissions allow:

- The server's settings. Each permission `Status/Settings/<a>/<b>/...` grants one path into the settings object. The answer is a tree that holds a copy of every granted path's value, and it is `null` when no granted path completes.
- The connected players. The permission `Status/Players` grants the list. Each `Status/Players/<Field>` grants one field of every player record.

**The connect packet.** It is the first packet a client sends:

- a 4-byte connection type, in the machine's byte order (little-endian in the model);
- then a fixed-size slot holding the client's name as UTF-8.

Modules:

- `Wrappers`:
  - `Option` stands for a C# nullable;
  - `Result` stands for a value or a thrown exception;
  - `Outcome` stands for a `void` call that completes or throws.
- `StatusSettings` (`status_settings.dfy`):
  - the settings object as a tree of `Setting`s;
  - the permission filter;
  - path splitting;
  - the output tree `Json`, in which an `Expando` is a created sub-object and a `Copy` holds a copied settings value;
  - `WalkPath`/`Descend`, the specification of one path's walk;
  - `Project`, the specification of the walk over all granted paths;
  - `GetSettings`, the imperative loop, proved equal to that specification. The source's aliasing of `output` into the root object is modelled as a list of `Frame`s that `Plug` writes back.
- `StatusSettingsProofs` (`status_settings_proofs.dfy`): what the settings projection means.
  - `Resolve` reads a path out of the output tree.
  - `Consistent` states that every copy in the output is the settings value at its own path.
  - The module also holds lemmas about null results, merging, placeholders and the failing cast, plus worked examples.
- `StatusPlayers` (`status_players.dfy`):
  - clients, packets and the metadata store;
  - the extractors;
  - the mutator table as a sequence of `Field`s;
  - `FromClient`, the loop;
  - `GetPlayers`;
  - order independence.
- `ConnectPacketCodec` (`connect_packet.dfy`):
  - the connection type codec;
  - `TrimNullTerm`;
  - the specification functions `Serialized`/`Deserialized`;
  - the `ConnectPacket` class with its in-place `Serialize`/`Deserialize`;
  - round-trip and framing lemmas.

Three behaviours of the code are worth knowing:

- `Serialize` does not zero the rest of the name slot. Bytes after the encoded name keep the buffer's old contents, so a name read back can carry stale bytes unless the buffer was zero-filled. `ConnectPacketCodec.RoundTrip` states exactly when the name survives.
- A name longer than the slot is not truncated. The copy into the slot throws after the connection type has already been written.
- Granting a settings path and then a longer path below it (`A`, then `A/B`) throws. The first path copies the value of `A` into the output, and the cast to a dictionary then fails on that copy. The reverse order does not throw. `StatusSettingsProofs.NestedGrantsDependOnOrder` shows both orders.

## Model

| member | source | states |
|---|---|---|
| StatusSettings.AllowedSettings | Server/JsonApi/ApiRequestStatus.cs:29-32 | a path is allowed exactly when `Status/Settings/` followed by it is a held permission (the 16-character prefix stripped); no more paths than permissions |
| StatusSettings.AllowedSettingsOne | Server/JsonApi/ApiRequestStatus.cs:29-32 | one permission gives its path with the 16-character prefix stripped when it starts with `Status/Settings/`, and nothing otherwise |
| StatusSettings.AllowedSettingsAppend | Server/JsonApi/ApiRequestStatus.cs:29-32 | the filter keeps the permissions' order and repetitions: the paths of a concatenation are the paths of each part, in order |
| StatusSettings.Split | Server/JsonApi/ApiRequestStatus.cs:44 | splitting on `/` gives at least one part, no part contains `/`, and joining the parts gives back the string |
| StatusSettings.SplitJoin | Server/JsonApi/ApiRequestStatus.cs:44 | splitting the join of `/`-free parts gives the parts back |
| StatusSettings.GetSettings | Server/JsonApi/ApiRequestStatus.cs:23-77 | the nested loop, with its `goto next` on a missing property and its write-back through aliased sub-objects, returns exactly the projection `ProjectSettings` |
| StatusSettingsProofs.SettingsProjection | Server/JsonApi/ApiRequestStatus.cs:23-77 | a result that is not an exception is null exactly when no allowed path reaches a property. Otherwise it is an object in which every copied value is the settings value at its own path, every granted path that reaches a property resolves to that property's value, every copied value sits at the path of a granted permission, and every object or value in it lies on a prefix of a granted path |
| StatusSettingsProofs.ProjectFacts | Server/JsonApi/ApiRequestStatus.cs:34-76 | over any list of remaining paths: null iff no earlier result and no path reaches; values resolved before are kept; each reached path resolves to its settings value |
| StatusSettingsProofs.WalkOutcome | Server/JsonApi/ApiRequestStatus.cs:44-70 | a walk that does not throw copies a value exactly when every property on the path exists and the last key is not empty |
| StatusSettingsProofs.WalkShape | Server/JsonApi/ApiRequestStatus.cs:50-61 | at the top level, a walk adds the path's first key to the output (an empty placeholder object when that property is missing) and leaves every other member unchanged |
| StatusSettingsProofs.WalkKeepsNodes | Server/JsonApi/ApiRequestStatus.cs:48-54 | at every depth, an existing member is reused, never dropped: every node of the output is still there after a walk, unless the walk completes and the node lies strictly below the walked path, where the copied value replaces it |
| StatusSettingsProofs.WalkAddsOnlyItsPath | Server/JsonApi/ApiRequestStatus.cs:50-54 | a walk creates nodes only along its own path: every node after the walk was there before or lies on a prefix of the walked path |
| StatusSettingsProofs.ProjectKeepsNodes | Server/JsonApi/ApiRequestStatus.cs:37-73 | a node of the output, such as a placeholder left by an abandoned path, stays in the result unless some later path is a strict prefix of it |
| StatusSettingsProofs.ProjectNodesOnPaths | Server/JsonApi/ApiRequestStatus.cs:37-73 | every node of the fold's result lies on a prefix of a path walked before or of one of the remaining paths |
| StatusSettingsProofs.WalkConsistent | Server/JsonApi/ApiRequestStatus.cs:62-69 | a walk keeps every copy equal to the settings value at its path, and a completed walk makes its path resolve to the settings value there |
| StatusSettingsProofs.WalkKeepsResolved | Server/JsonApi/ApiRequestStatus.cs:65-69 | a walk never changes the value a path already resolved to, so granted paths with a common prefix merge |
| StatusSettingsProofs.WalkCreatesNodes | Server/JsonApi/ApiRequestStatus.cs:50-54 | every prefix of the path up to the first missing property exists as a node in the output after the walk |
| StatusSettingsProofs.WalkCastFails | Server/JsonApi/ApiRequestStatus.cs:48 | the cast to a dictionary cannot fail when no strict prefix of the path holds a copied value |
| StatusSettingsProofs.WalkCopies | Server/JsonApi/ApiRequestStatus.cs:65-69 | the only new copy a walk places is at its own path |
| StatusSettingsProofs.ProjectCopiesOnlyGranted | Server/JsonApi/ApiRequestStatus.cs:37-73 | over any list of remaining paths, every copy in the result sits at a path copied before or at one of those paths |
| StatusSettingsProofs.ProjectNeverThrows | Server/JsonApi/ApiRequestStatus.cs:37-73 | when no remaining path extends a path copied before it, the fold over the paths does not throw |
| StatusSettingsProofs.SettingsProjectionNeverThrows | Server/JsonApi/ApiRequestStatus.cs:37-73 | `GetSettings` does not throw unless some granted path continues past the end of an earlier granted path |
| StatusSettingsProofs.SharedPrefixMerges | Server/JsonApi/ApiRequestStatus.cs:50-54 | granting `A/B` and `A/C` gives one object `A` holding both values |
| StatusSettingsProofs.WalkMissing | Server/JsonApi/ApiRequestStatus.cs:57-61 | a one-key path naming a missing property is abandoned, leaving an empty placeholder |
| StatusSettingsProofs.MissingBeforePresent | Server/JsonApi/ApiRequestStatus.cs:57-61 | a granted path to a missing property is skipped but leaves its empty placeholder beside the completed path |
| StatusSettingsProofs.MissingAloneIsNull | Server/JsonApi/ApiRequestStatus.cs:58-75 | a single granted path to a missing property gives null |
| StatusSettingsProofs.NestedGrantsDependOnOrder | Server/JsonApi/ApiRequestStatus.cs:44-70 | `A` then `A/B` throws the invalid cast; `A/B` then `A` gives `A` holding the whole copied value |
| StatusPlayers.GetGamePacket | Server/JsonApi/ApiRequestStatus.cs:123-128 | null exactly when the store has no `lastGamePacket`; otherwise the stored game packet |
| StatusPlayers.GetPlayerPacket | Server/JsonApi/ApiRequestStatus.cs:131-136 | null exactly when the store has no `lastPlayerPacket`; otherwise the stored player packet |
| StatusPlayers.GetTagged | Server/JsonApi/ApiRequestStatus.cs:139-143 | null exactly when the store has no `seeking`; otherwise the stored flag |
| StatusPlayers.GetCapture | Server/JsonApi/ApiRequestStatus.cs:146-153 | null exactly when there is no capture packet or its model name is empty; otherwise the non-empty model name |
| StatusPlayers.GetKingdom | Server/JsonApi/ApiRequestStatus.cs:156-168 | a kingdom exactly when there is a game packet, its stage has an alias, and the alias has a kingdom; it is then the kingdom of the stage's alias |
| StatusPlayers.Costume.FromClient | Server/JsonApi/ApiRequestStatus.cs:183-187 | null exactly when the client has no current costume; otherwise cap from the cap name and body from the body name |
| StatusPlayers.Position.FromVector3 | Server/JsonApi/ApiRequestStatus.cs:203-207 | null exactly for a null vector; otherwise the same X, Y, Z |
| StatusPlayers.Rotation.FromQuaternion | Server/JsonApi/ApiRequestStatus.cs:224-228 | null exactly for a null quaternion; otherwise the same W, X, Y, Z |
| StatusPlayers.Extract | Server/JsonApi/ApiRequestStatus.cs:91-102 | each mutator's value: `ID` and `Name` are the client's and never null; every other field is null exactly when its source (game packet, player packet, seeking flag, costume, capture, kingdom, IP end point) is missing, and otherwise holds the value the source gives: the stage, scenario number and 2D flag of the game packet, the position and rotation of the player packet, the seeking flag, the costume's cap and body names, the non-empty capture model name, the stage's kingdom and the address text |
| StatusPlayers.EveryFieldHasMutator | Server/JsonApi/ApiRequestStatus.cs:90-103 | the mutator table has an entry for every player field |
| StatusPlayers.PermissionsDiffer | Server/JsonApi/ApiRequestStatus.cs:90-103 | distinct fields are gated by distinct permissions, none of which is `Status/Players` itself |
| StatusPlayers.FromClient | Server/JsonApi/ApiRequestStatus.cs:112-120 | the loop over the table yields a record holding a field exactly when that field's permission is held, with the value the field's mutator computes |
| StatusPlayers.GetPlayers | Server/JsonApi/ApiRequestStatus.cs:106-109 | null exactly without `Status/Players`; otherwise one record per connected client in registry order (so no clients gives an empty list), each holding exactly the granted fields |
| StatusPlayers.ApplyAdds | Server/JsonApi/ApiRequestStatus.cs:114-118 | applying the mutators of any sequence of fields adds exactly the granted ones with their values, whatever the order and repetitions |
| StatusPlayers.AnyOrderGivesTheRecord | Server/JsonApi/ApiRequestStatus.cs:114-118 | iterating the table in any order gives the same record |
| StatusPlayers.ListPermissionAloneGivesEmptyRecords | Server/JsonApi/ApiRequestStatus.cs:106-118 | holding only `Status/Players` gives one record per client, each with no field |
| StatusPlayers.NameOnly | Server/JsonApi/ApiRequestStatus.cs:106-118 | holding `Status/Players` and `Status/Players/Name` gives records holding only the name |
| StatusPlayers.EmptyCaptureIsPresentNull | Server/JsonApi/ApiRequestStatus.cs:146-153 | a granted capture field with an empty model name is present with value null, not absent |
| StatusPlayers.KingdomNeedsStage | Server/JsonApi/ApiRequestStatus.cs:156-168 | the kingdom field is null whenever the stage field is, and otherwise is the kingdom the stage tables give for the stage |
| ConnectPacketCodec.ConnectPacket.constructor | Shared/Packet/Packets/ConnectPacket.cs:8-11 | a fresh packet is a first connection named `?????` |
| ConnectPacketCodec.UnsignedOfLittleEndian | Shared/Packet/Packets/ConnectPacket.cs:16 | reading back the little-endian bytes of a value that fits gives the value |
| ConnectPacketCodec.LittleEndianOfUnsigned | Shared/Packet/Packets/ConnectPacket.cs:21 | writing back the value read from little-endian bytes gives the bytes |
| ConnectPacketCodec.EncodeInt32 | Shared/Packet/Packets/ConnectPacket.cs:16 | four bytes whose little-endian value is the connection type's two's complement value modulo 2^32 |
| ConnectPacketCodec.DecodeInt32 | Shared/Packet/Packets/ConnectPacket.cs:21 | the connection type read from four bytes is negative exactly when the last byte's top bit is set, and equals their unsigned value modulo 2^32 |
| ConnectPacketCodec.DecodeEncode | Shared/Packet/Packets/ConnectPacket.cs:16 | every 32-bit connection type, named or not, reads back as written |
| ConnectPacketCodec.EncodeDecode | Shared/Packet/Packets/ConnectPacket.cs:21 | any 4 bytes read as a connection type write back as the same bytes |
| ConnectPacketCodec.TrimNullTerm | Shared/Packet/Packets/ConnectPacket.cs:22 | the result is the longest prefix without a NUL: a prefix, NUL-free, and followed by a NUL when shorter |
| ConnectPacketCodec.TrimNameThen | Shared/Packet/Packets/ConnectPacket.cs:22 | trimming a name followed by bytes gives the name iff the name is NUL-free and the bytes end or start with NUL |
| ConnectPacketCodec.TrimIgnoresTrailingZeros | Shared/Packet/Packets/ConnectPacket.cs:22 | NUL bytes after a name do not change the trimmed name |
| ConnectPacketCodec.Serialized | Shared/Packet/Packets/ConnectPacket.cs:13-18 | completes iff the buffer holds the packet's `Size` (4 + slot size) and the name fits the slot. It writes the connection type to bytes 0-3 whenever they exist and the name from offset 4, and never writes at or after the end of the name. A failure leaves every byte from 4 on unchanged, and a buffer shorter than 4 bytes entirely unchanged. A buffer shorter than `Size` throws `ArgumentOutOfRangeException`; otherwise a name longer than the slot throws the destination-too-short `ArgumentException` |
| ConnectPacketCodec.Deserialized | Shared/Packet/Packets/ConnectPacket.cs:13-23 | completes iff the buffer holds `Size` bytes. It reads the connection type from bytes 0-3 whenever they exist, and the name is the slot's longest NUL-free prefix. A failure is always `ArgumentOutOfRangeException` and keeps the old name |
| ConnectPacketCodec.ConnectPacket.Serialize | Shared/Packet/Packets/ConnectPacket.cs:15-18 | writes the buffer in place exactly as `Serialized` describes, and throws where it does |
| ConnectPacketCodec.ConnectPacket.Deserialize | Shared/Packet/Packets/ConnectPacket.cs:20-23 | assigns the packet's fields exactly as `Deserialized` describes, the connection type before the slice that may throw |
| ConnectPacketCodec.SizeIsTheBufferNeeded | Shared/Packet/Packets/ConnectPacket.cs:13 | `ConnectPacket.Size` (4 + slot size, a static function that cannot read the fields) is the buffer length both directions need, for every packet: at exactly `Size` bytes every fitting name is written and the buffer can always be read; any shorter buffer makes both throw |
| ConnectPacketCodec.DeserializeReadsOnlyThePacket | Shared/Packet/Packets/ConnectPacket.cs:20-23 | two buffers agreeing on the first `Size` bytes deserialize alike |
| ConnectPacketCodec.RoundTrip | Shared/Packet/Packets/ConnectPacket.cs:15-23 | serializing then deserializing completes and restores the connection type, and restores the name iff it is NUL-free and the slot byte after it is NUL or absent |
| ConnectPacketCodec.RoundTripThroughZeros | Shared/Packet/Packets/ConnectPacket.cs:15-23 | through a zero-filled buffer the fields come back with the name cut at its first NUL |
| ConnectPacketCodec.ReserializeIsIdentity | Shared/Packet/Packets/ConnectPacket.cs:15-23 | serializing the fields just deserialized from a buffer leaves the buffer unchanged |
| ConnectPacketCodec.FreshPacketRoundTrip | Shared/Packet/Packets/ConnectPacket.cs:8-23 | a fresh packet sent through a zero-filled buffer comes back as a first connection named `?????` |

## Left out

- Sending the response and the asynchronous I/O around it, and the JSON attributes that omit null members, are not modelled. Serialization to JSON is outside the model.
- The settings object is a tree of maps, not a C# object read by reflection. A property is a map key, and a leaf value has no properties of its own. In C#, reflection finds properties such as `Length` on a string.
- Settings values that are `null` are not modelled, so the `next == null` break at line 47 of `ApiRequestStatus.cs` never fires in the model.
- The warning logged for a missing property is not modelled.
- `StartsWith` is modelled as an ordinal prefix test. C#'s default culture-sensitive comparison is not modelled.
- The insertion order of members in an `ExpandoObject` and of a `Dictionary` is not modelled: outputs are maps. The mutator table's listed order is kept as a sequence, and `AnyOrderGivesTheRecord` shows that order does not matter.
- StatusPlayers.WellTyped: the casts of metadata values to `GamePacket`, `PlayerPacket`, `bool?` and `CapturePacket` are a precondition, not an `InvalidCastException` outcome. A metadata value stored as `null` is treated as a missing key.
- The connected-client registry, its concurrency and reconnection logic, and the socket are not modelled. Clients are a sequence of values, and the socket's IP address is an optional string.
- A client's Guid is modelled by its numeric value.
- The stage tables (`Stage2Alias`, `Alias2Kingdom`) are a parameter. The name slot size (`CostumeNameSize`) is a parameter `nameSize`.
- `Size` is a C# `short`. The model uses an unbounded `nat` and assumes the constant slot size fits.
- Floats are kept as their 32-bit patterns and copied, never computed with.
- UTF-8 encoding and decoding are not modelled. The client name is its byte sequence. Strings with unpaired surrogates, and invalid bytes that decoding replaces with U+FFFD, are therefore outside the round-trip lemmas.
- The byte order of the connection type is assumed little-endian. `MemoryMarshal` writes and reads it in the machine's own byte order.
- The connection type is modelled as any 32-bit value, as `MemoryMarshal.Read` accepts. `FirstConnection` is 0 and `Reconnecting` is 1.
