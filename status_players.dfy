/** The player half of a status request: one record per connected client, each
    holding exactly the fields whose permission the caller holds. */
module StatusPlayers {
  import opened Wrappers

  // ---------------------------------------------------------------------------
  // Packets kept by a client
  // ---------------------------------------------------------------------------

  /** A single-precision float, kept as its bit pattern: the projection copies
      floats and never computes with them. */
  type Float = bv32

  /** A signed byte. */
  type SByte = n: int | -128 <= n < 128

  datatype Vector3 = Vector3(x: Float, y: Float, z: Float)
  datatype Quaternion = Quaternion(x: Float, y: Float, z: Float, w: Float)

  datatype GamePacket = GamePacket(is2d: bool, scenarioNum: SByte, stage: string)
  datatype PlayerPacket = PlayerPacket(position: Vector3, rotation: Quaternion)
  datatype CapturePacket = CapturePacket(modelName: string)
  datatype CostumePacket = CostumePacket(bodyName: string, capName: string)

  /** A value in a client's metadata store; `Other` is any value of another type. */
  datatype MetaValue =
    | GameState(game: GamePacket)
    | Transform(player: PlayerPacket)
    | LastCapture(capture: CapturePacket)
    | Seeking(seeking: bool)
    | Other

  const LastGamePacketKey: string := "lastGamePacket"
  const LastPlayerPacketKey: string := "lastPlayerPacket"
  const SeekingKey: string := "seeking"
  const LastCapturePacketKey: string := "lastCapturePacket"

  /** A connected client as the projection sees it. `id` is the value of its
      Guid; `remoteAddress` is the text of its socket's address when the socket
      has an IP end point, and `None` otherwise. */
  datatype Client = Client(
    id: nat,
    name: string,
    currentCostume: Option<CostumePacket>,
    metadata: map<string, MetaValue>,
    remoteAddress: Option<string>)

  /** The casts applied to the metadata values succeed: each key the projection
      reads holds a value of the type it is cast to. */
  predicate WellTyped(c: Client)
  {
    && (LastGamePacketKey in c.metadata ==> c.metadata[LastGamePacketKey].GameState?)
    && (LastPlayerPacketKey in c.metadata ==> c.metadata[LastPlayerPacketKey].Transform?)
    && (SeekingKey in c.metadata ==> c.metadata[SeekingKey].Seeking?)
    && (LastCapturePacketKey in c.metadata ==> c.metadata[LastCapturePacketKey].LastCapture?)
  }

  /** The stage tables: stage name to alias, alias to kingdom name. */
  datatype Stages = Stages(stage2Alias: map<string, string>, alias2Kingdom: map<string, string>)

  // ---------------------------------------------------------------------------
  // Extractors: each turns a missing or empty value into `None` (null)
  // ---------------------------------------------------------------------------

  function GetGamePacket(c: Client): (r: Option<GamePacket>)
    requires WellTyped(c)
    ensures r.None? <==> LastGamePacketKey !in c.metadata
    ensures r.Some? ==> c.metadata[LastGamePacketKey] == GameState(r.value)
  {
    if LastGamePacketKey in c.metadata then Some(c.metadata[LastGamePacketKey].game) else None
  }

  function GetPlayerPacket(c: Client): (r: Option<PlayerPacket>)
    requires WellTyped(c)
    ensures r.None? <==> LastPlayerPacketKey !in c.metadata
    ensures r.Some? ==> c.metadata[LastPlayerPacketKey] == Transform(r.value)
  {
    if LastPlayerPacketKey in c.metadata then Some(c.metadata[LastPlayerPacketKey].player) else None
  }

  function GetTagged(c: Client): (r: Option<bool>)
    requires WellTyped(c)
    ensures r.None? <==> SeekingKey !in c.metadata
    ensures r.Some? ==> c.metadata[SeekingKey] == Seeking(r.value)
  {
    if SeekingKey in c.metadata then Some(c.metadata[SeekingKey].seeking) else None
  }

  /** The model being captured; an empty model name means no capture. */
  function GetCapture(c: Client): (r: Option<string>)
    requires WellTyped(c)
    ensures r.None? <==>
      LastCapturePacketKey !in c.metadata || c.metadata[LastCapturePacketKey].capture.modelName == ""
    ensures r.Some? ==> r.value != "" && c.metadata[LastCapturePacketKey] == LastCapture(CapturePacket(r.value))
  {
    if LastCapturePacketKey !in c.metadata then None
    else
      var p := c.metadata[LastCapturePacketKey].capture;
      if p.modelName == "" then None else Some(p.modelName)
  }

  /** The kingdom of the client's stage, through the two stage tables. */
  function GetKingdom(c: Client, st: Stages): (r: Option<string>)
    requires WellTyped(c)
    ensures r.Some? <==>
      && GetGamePacket(c).Some?
      && GetGamePacket(c).value.stage in st.stage2Alias
      && st.stage2Alias[GetGamePacket(c).value.stage] in st.alias2Kingdom
    ensures r.Some? ==> r.value == st.alias2Kingdom[st.stage2Alias[GetGamePacket(c).value.stage]]
  {
    match GetGamePacket(c)
    case None => None
    case Some(game) =>
      if game.stage !in st.stage2Alias then None
      else
        var alias := st.stage2Alias[game.stage];
        if alias in st.alias2Kingdom then Some(st.alias2Kingdom[alias]) else None
  }

  // ---------------------------------------------------------------------------
  // Output records
  // ---------------------------------------------------------------------------

  datatype Costume = Outfit(cap: string, body: string)
  {
    /** The client's current costume: the cap from the cap name, the body from
        the body name. */
    static function FromClient(c: Client): (r: Option<Costume>)
      ensures r.None? <==> c.currentCostume.None?
      ensures r.Some? ==>
        r.value.cap == c.currentCostume.value.capName && r.value.body == c.currentCostume.value.bodyName
    {
      match c.currentCostume
      case None => None
      case Some(p) => Some(Outfit(p.capName, p.bodyName))
    }
  }

  datatype Position = Point(x: Float, y: Float, z: Float)
  {
    static function FromVector3(pos: Option<Vector3>): (r: Option<Position>)
      ensures r.None? <==> pos.None?
      ensures r.Some? ==> r.value.x == pos.value.x && r.value.y == pos.value.y && r.value.z == pos.value.z
    {
      match pos
      case None => None
      case Some(p) => Some(Point(p.x, p.y, p.z))
    }
  }

  datatype Rotation = Orientation(w: Float, x: Float, y: Float, z: Float)
  {
    static function FromQuaternion(quat: Option<Quaternion>): (r: Option<Rotation>)
      ensures r.None? <==> quat.None?
      ensures r.Some? ==>
        r.value.w == quat.value.w && r.value.x == quat.value.x && r.value.y == quat.value.y && r.value.z == quat.value.z
    {
      match quat
      case None => None
      case Some(q) => Some(Orientation(q.w, q.x, q.y, q.z))
    }
  }

  /** A field of a player record. */
  datatype Field = ID | Name | Kingdom | Stage | Scenario | Position | Rotation | Tagged | Costume | Capture | Is2D | IPv4

  /** The value written into a field; `Null` is a field present with value null. */
  datatype FieldValue =
    | Null
    | GuidValue(id: nat)
    | Text(text: string)
    | Number(number: int)
    | Flag(flag: bool)
    | PositionValue(position: Position)
    | RotationValue(rotation: Rotation)
    | CostumeValue(costume: Costume)

  /** A player record: a field absent from the map was never written. */
  type PlayerRecord = map<Field, FieldValue>

  function FieldName(f: Field): string
  {
    match f
    case ID => "ID"
    case Name => "Name"
    case Kingdom => "Kingdom"
    case Stage => "Stage"
    case Scenario => "Scenario"
    case Position => "Position"
    case Rotation => "Rotation"
    case Tagged => "Tagged"
    case Costume => "Costume"
    case Capture => "Capture"
    case Is2D => "Is2D"
    case IPv4 => "IPv4"
  }

  /** The field a property name denotes, if any. */
  function FieldNamed(name: string): Option<Field>
  {
    if name == "ID" then Some(ID)
    else if name == "Name" then Some(Name)
    else if name == "Kingdom" then Some(Kingdom)
    else if name == "Stage" then Some(Stage)
    else if name == "Scenario" then Some(Scenario)
    else if name == "Position" then Some(Field.Position)
    else if name == "Rotation" then Some(Field.Rotation)
    else if name == "Tagged" then Some(Tagged)
    else if name == "Costume" then Some(Field.Costume)
    else if name == "Capture" then Some(Capture)
    else if name == "Is2D" then Some(Is2D)
    else if name == "IPv4" then Some(IPv4)
    else None
  }

  lemma FieldNamedInvertsFieldName(f: Field)
    ensures FieldNamed(FieldName(f)) == Some(f)
  {
  }

  const PlayersPermission: string := "Status/Players"

  /** The permission gating one field. */
  function PermissionOf(f: Field): string
  {
    PlayersPermission + "/" + FieldName(f)
  }

  /** Distinct fields have distinct permissions, none of which is the list
      permission: each field has its own gate. */
  lemma PermissionsDiffer(f: Field, g: Field)
    ensures PermissionOf(f) == PermissionOf(g) ==> f == g
    ensures PermissionOf(f) != PlayersPermission
  {
    assert |PermissionOf(f)| > |PlayersPermission|;
    if PermissionOf(f) == PermissionOf(g) {
      assert FieldName(f) == PermissionOf(f)[15..];
      assert FieldName(g) == PermissionOf(g)[15..];
      FieldNamedInvertsFieldName(f);
      FieldNamedInvertsFieldName(g);
    }
  }

  /** The mutators, in the order the table lists them. */
  const Mutators: seq<Field> :=
    [ID, Name, Kingdom, Stage, Scenario, Field.Position, Field.Rotation, Tagged, Field.Costume, Capture, Is2D, IPv4]

  function TextOrNull(s: Option<string>): FieldValue
  {
    match s
    case None => Null
    case Some(t) => Text(t)
  }

  /** What the mutator of field `f` writes for client `c`: the identifier and
      the name are never null, every other field is null exactly when the
      value it is read from is missing, and otherwise holds that value. */
  function Extract(f: Field, c: Client, st: Stages): (v: FieldValue)
    requires WellTyped(c)
    ensures f == ID ==> v == GuidValue(c.id)
    ensures f == Name ==> v == Text(c.name)
    ensures f == Kingdom ==> (v == Null <==> GetKingdom(c, st).None?)
    ensures f == Stage || f == Scenario || f == Is2D ==> (v == Null <==> GetGamePacket(c).None?)
    ensures f == Field.Position || f == Field.Rotation ==> (v == Null <==> GetPlayerPacket(c).None?)
    ensures f == Tagged ==> (v == Null <==> GetTagged(c).None?)
    ensures f == Field.Costume ==> (v == Null <==> c.currentCostume.None?)
    ensures f == Capture ==> (v == Null <==> GetCapture(c).None?)
    ensures f == IPv4 ==> (v == Null <==> c.remoteAddress.None?)
    ensures f == Kingdom && GetKingdom(c, st).Some? ==> v == Text(GetKingdom(c, st).value)
    ensures f == Stage && GetGamePacket(c).Some? ==> v == Text(GetGamePacket(c).value.stage)
    ensures f == Scenario && GetGamePacket(c).Some? ==> v == Number(GetGamePacket(c).value.scenarioNum)
    ensures f == Is2D && GetGamePacket(c).Some? ==> v == Flag(GetGamePacket(c).value.is2d)
    ensures f == Field.Position && GetPlayerPacket(c).Some? ==>
      var p := GetPlayerPacket(c).value.position;
      v == PositionValue(Point(p.x, p.y, p.z))
    ensures f == Field.Rotation && GetPlayerPacket(c).Some? ==>
      var q := GetPlayerPacket(c).value.rotation;
      v == RotationValue(Orientation(q.w, q.x, q.y, q.z))
    ensures f == Tagged && GetTagged(c).Some? ==> v == Flag(GetTagged(c).value)
    ensures f == Field.Costume && c.currentCostume.Some? ==>
      v == CostumeValue(Outfit(c.currentCostume.value.capName, c.currentCostume.value.bodyName))
    ensures f == Capture && GetCapture(c).Some? ==> v == Text(GetCapture(c).value)
    ensures f == IPv4 && c.remoteAddress.Some? ==> v == Text(c.remoteAddress.value)
  {
    match f
    case ID => GuidValue(c.id)
    case Name => Text(c.name)
    case Kingdom => TextOrNull(GetKingdom(c, st))
    case Stage => if GetGamePacket(c).None? then Null else Text(GetGamePacket(c).value.stage)
    case Scenario => if GetGamePacket(c).None? then Null else Number(GetGamePacket(c).value.scenarioNum)
    case Position =>
      var pos := Position.FromVector3(if GetPlayerPacket(c).None? then None else Some(GetPlayerPacket(c).value.position));
      if pos.None? then Null else PositionValue(pos.value)
    case Rotation =>
      var rot := Rotation.FromQuaternion(if GetPlayerPacket(c).None? then None else Some(GetPlayerPacket(c).value.rotation));
      if rot.None? then Null else RotationValue(rot.value)
    case Tagged => if GetTagged(c).None? then Null else Flag(GetTagged(c).value)
    case Costume => if Costume.FromClient(c).None? then Null else CostumeValue(Costume.FromClient(c).value)
    case Capture => TextOrNull(GetCapture(c))
    case Is2D => if GetGamePacket(c).None? then Null else Flag(GetGamePacket(c).value.is2d)
    case IPv4 => TextOrNull(c.remoteAddress)
  }

  /** What every mutator writes for client `c`. */
  function Values(c: Client, st: Stages): map<Field, FieldValue>
    requires WellTyped(c)
  {
    map f | f in Mutators :: Extract(f, c, st)
  }

  /** The fields whose permission is held. */
  function GrantedFields(perms: set<string>): set<Field>
  {
    set f | f in Mutators && PermissionOf(f) in perms
  }

  /** The record of the fields among `fields` that are in `grants`, each
      holding the value `values` gives it. */
  function Granted(fields: seq<Field>, grants: set<Field>, values: map<Field, FieldValue>): PlayerRecord
  {
    map f | f in fields && f in values && f in grants :: values[f]
  }

  /** The record built for one client. */
  function Record(perms: set<string>, c: Client, st: Stages): PlayerRecord
    requires WellTyped(c)
  {
    Granted(Mutators, GrantedFields(perms), Values(c, st))
  }

  /** A field of the table is granted exactly when its permission is held. */
  lemma InGrantedFields(perms: set<string>, f: Field)
    requires f in Mutators
    ensures f in GrantedFields(perms) <==> PermissionOf(f) in perms
  {
  }

  /** The value recorded for a field of the table is what its mutator writes. */
  lemma InValues(c: Client, st: Stages, f: Field)
    requires WellTyped(c) && f in Mutators
    ensures f in Values(c, st) && Values(c, st)[f] == Extract(f, c, st)
  {
  }

  /** Granting one more field extends the record by that field alone. */
  lemma GrantedSnoc(fields: seq<Field>, f: Field, grants: set<Field>, values: map<Field, FieldValue>)
    requires f in values
    ensures Granted(fields + [f], grants, values)
         == if f in grants then Granted(fields, grants, values)[f := values[f]] else Granted(fields, grants, values)
  {
  }

  /** The table has a mutator for every field. */
  lemma EveryFieldHasMutator(f: Field)
    ensures f in Mutators
  {
    match f
    case ID => assert Mutators[0] == f;
    case Name => assert Mutators[1] == f;
    case Kingdom => assert Mutators[2] == f;
    case Stage => assert Mutators[3] == f;
    case Scenario => assert Mutators[4] == f;
    case Position => assert Mutators[5] == f;
    case Rotation => assert Mutators[6] == f;
    case Tagged => assert Mutators[7] == f;
    case Costume => assert Mutators[8] == f;
    case Capture => assert Mutators[9] == f;
    case Is2D => assert Mutators[10] == f;
    case IPv4 => assert Mutators[11] == f;
  }

  /** `FromClient`: applies, in table order, every mutator whose permission is
      held to an initially empty record. */
  method FromClient(perms: set<string>, c: Client, st: Stages) returns (player: PlayerRecord)
    requires WellTyped(c)
    ensures player == Record(perms, c, st)
    ensures forall f :: f in player <==> PermissionOf(f) in perms
    ensures forall f :: f in player ==> player[f] == Extract(f, c, st)
  {
    player := map[];
    ghost var grants := GrantedFields(perms);
    ghost var values := Values(c, st);
    for i := 0 to |Mutators|
      invariant player == Granted(Mutators[..i], grants, values)
    {
      var f := Mutators[i];
      assert Mutators[..i + 1] == Mutators[..i] + [f];
      InValues(c, st, f);
      InGrantedFields(perms, f);
      GrantedSnoc(Mutators[..i], f, grants, values);
      if PermissionOf(f) in perms {
        player := player[f := Extract(f, c, st)];
      }
    }
    assert Mutators[..|Mutators|] == Mutators;
    forall f
      ensures f in Mutators
    {
      EveryFieldHasMutator(f);
    }
  }

  // ---------------------------------------------------------------------------
  // The player list
  // ---------------------------------------------------------------------------

  predicate AllWellTyped(clients: seq<Client>)
  {
    forall i :: 0 <= i < |clients| ==> WellTyped(clients[i])
  }

  /** `GetPlayers`: `None` (null) without the list permission; otherwise one
      record per connected client, in registry order. */
  function GetPlayers(perms: set<string>, clients: seq<Client>, st: Stages): (r: Option<seq<PlayerRecord>>)
    requires AllWellTyped(clients)
    ensures r.None? <==> PlayersPermission !in perms
    ensures r.Some? ==> |r.value| == |clients|
    ensures r.Some? ==> forall i, f :: 0 <= i < |clients| ==>
      (f in r.value[i] <==> PermissionOf(f) in perms) &&
      (f in r.value[i] ==> r.value[i][f] == Extract(f, clients[i], st))
  {
    if PlayersPermission !in perms then None
    else
      assert forall f :: f in Mutators by {
        forall f
          ensures f in Mutators
        {
          EveryFieldHasMutator(f);
        }
      }
      Some(seq(|clients|, i requires 0 <= i < |clients| => Record(perms, clients[i], st)))
  }

  // ---------------------------------------------------------------------------
  // Order independence
  // ---------------------------------------------------------------------------

  /** Applies the mutators of `order`, one after the other, to `player`. */
  function Apply(player: PlayerRecord, order: seq<Field>, grants: set<Field>, values: map<Field, FieldValue>): PlayerRecord
    requires forall f :: f in order ==> f in values
    decreases |order|
  {
    if order == [] then player
    else
      var f := order[0];
      Apply(if f in grants then player[f := values[f]] else player, order[1..], grants, values)
  }

  /** Applying mutators to a record adds exactly the granted fields, each with
      its value; the order of `order` and repetitions in it do not matter. */
  lemma {:induction false} ApplyAdds(player: PlayerRecord, order: seq<Field>, grants: set<Field>, values: map<Field, FieldValue>)
    requires forall f :: f in order ==> f in values
    ensures Apply(player, order, grants, values) == player + Granted(order, grants, values)
    decreases |order|
  {
    if order != [] {
      var f := order[0];
      var next := if f in grants then player[f := values[f]] else player;
      ApplyAdds(next, order[1..], grants, values);
      var lhs := next + Granted(order[1..], grants, values);
      var rhs := player + Granted(order, grants, values);
      forall g
        ensures g in lhs <==> g in rhs
        ensures g in lhs ==> lhs[g] == rhs[g]
      {
        assert g in order <==> g == f || g in order[1..] by {
          assert order == [f] + order[1..];
        }
      }
    }
  }

  /** Each mutator writes its own field, so the record is the same for every
      iteration order of the table. */
  lemma {:induction false} AnyOrderGivesTheRecord(order: seq<Field>, perms: set<string>, c: Client, st: Stages)
    requires WellTyped(c)
    requires forall f :: f in order <==> f in Mutators
    ensures Apply(map[], order, GrantedFields(perms), Values(c, st)) == Record(perms, c, st)
  {
    ApplyAdds(map[], order, GrantedFields(perms), Values(c, st));
    assert Granted(order, GrantedFields(perms), Values(c, st)) == Granted(Mutators, GrantedFields(perms), Values(c, st));
  }

  // ---------------------------------------------------------------------------
  // Properties of the projection
  // ---------------------------------------------------------------------------

  /** Holding only the list permission gives records with no fields at all. */
  lemma {:induction false} ListPermissionAloneGivesEmptyRecords(clients: seq<Client>, st: Stages)
    requires AllWellTyped(clients)
    ensures GetPlayers({PlayersPermission}, clients, st).Some?
    ensures forall i :: 0 <= i < |clients| ==> GetPlayers({PlayersPermission}, clients, st).value[i] == map[]
  {
    var r := GetPlayers({PlayersPermission}, clients, st).value;
    forall i | 0 <= i < |clients|
      ensures r[i] == map[]
    {
      forall f
        ensures f !in r[i]
      {
        PermissionsDiffer(f, f);
      }
    }
  }

  /** A record holding exactly the fields granted by the list permission and
      the name permission holds only the name. */
  lemma OnlyNameGranted(perms: set<string>, m: PlayerRecord, c: Client, st: Stages)
    requires WellTyped(c) && perms == {PlayersPermission, PermissionOf(Name)}
    requires forall f :: f in m <==> PermissionOf(f) in perms
    requires forall f :: f in m ==> m[f] == Extract(f, c, st)
    ensures m == map[Name := Text(c.name)]
  {
    forall f
      ensures f in m <==> f == Name
    {
      PermissionsDiffer(f, Name);
    }
    assert m.Keys == {Name};
  }

  /** Granting only the name field gives records holding only the name. */
  lemma {:induction false} NameOnly(clients: seq<Client>, st: Stages)
    requires AllWellTyped(clients)
    ensures GetPlayers({PlayersPermission, PermissionOf(Name)}, clients, st).Some?
    ensures forall i :: 0 <= i < |clients| ==>
      GetPlayers({PlayersPermission, PermissionOf(Name)}, clients, st).value[i] == map[Name := Text(clients[i].name)]
  {
    var perms := {PlayersPermission, PermissionOf(Name)};
    var r := GetPlayers(perms, clients, st).value;
    forall i | 0 <= i < |clients|
      ensures r[i] == map[Name := Text(clients[i].name)]
    {
      OnlyNameGranted(perms, r[i], clients[i], st);
    }
  }

  /** A granted field whose value is missing is written as null rather than
      left out: a capture packet with an empty model name gives a present,
      null capture. */
  lemma EmptyCaptureIsPresentNull(perms: set<string>, c: Client, st: Stages)
    requires WellTyped(c)
    requires PermissionOf(Capture) in perms
    requires LastCapturePacketKey in c.metadata && c.metadata[LastCapturePacketKey] == LastCapture(CapturePacket(""))
    ensures Capture in Record(perms, c, st) && Record(perms, c, st)[Capture] == Null
  {
  }

  /** The kingdom is known only when the stage is. */
  lemma KingdomNeedsStage(c: Client, st: Stages)
    requires WellTyped(c)
    ensures Extract(Stage, c, st) == Null ==> Extract(Kingdom, c, st) == Null
    ensures Extract(Kingdom, c, st) != Null ==>
      Extract(Kingdom, c, st) == Text(st.alias2Kingdom[st.stage2Alias[Extract(Stage, c, st).text]])
  {
  }
}
