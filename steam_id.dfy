/**
 * The SteamID codec of `steamkit-util/src/id.rs`. An id packs a universe
 * (8 bits), an account type (4 bits), an instance (20 bits) and an
 * account number (32 bits) into one 64-bit value, and has two text forms:
 * the legacy `STEAM_X:Y:Z` and the bracketed `[C:U:A]` or `[C:U:A:I]`.
 *
 * The enums derive `TryFromPrimitive` with a `#[num_enum(default)]`
 * variant. Whether an out-of-range number then yields that default
 * variant or an error depends on the derive's semantics, so every decoder
 * takes `lenient`: `true` maps out-of-range numbers to the default
 * variant, `false` makes them an error. The properties below hold for
 * both unless they say otherwise.
 *
 * Shifts and masks on `u64` are written as division and remainder by
 * powers of two, which they equal on values below 2^64; `|` is `Or`.
 */
module SteamId {
  import opened Wrappers
  import opened Text

  const TWO_32: nat := 0x1_0000_0000
  const TWO_52: nat := 0x10_0000_0000_0000
  const TWO_56: nat := 0x100_0000_0000_0000
  const TWO_64: nat := 0x1_0000_0000_0000_0000

  /** The `u64` values. */
  type U64 = n: nat | n < TWO_64

  datatype Universe = Invalid | Public | Beta | Internal | Dev

  datatype Type =
    | Invalid | Individual | Multiseat | GameServer | AnonGameServer | Pending
    | ContentServer | Clan | Chat | P2PSuperSeeder | AnonUser

  datatype Instance = All | Desktop | Console | Web

  datatype Id = Id(universe: Universe, type_: Type, instance: Instance, account: U64)

  datatype IdError =
    | InvalidUniverse(number: nat)
    | InvalidType(number: nat)
    | InvalidInstance(number: nat)
    | InvalidTypeChar(c: char)
    | MissingTypeChar(t: Type)
    | ParseIntError
    | Unknown
    | IncompatibleVersion

  function UniverseValue(u: Universe): (n: nat)
    ensures n <= 4
  {
    match u
    case Invalid => 0
    case Public => 1
    case Beta => 2
    case Internal => 3
    case Dev => 4
  }

  function TypeValue(t: Type): (n: nat)
    ensures n <= 10
  {
    match t
    case Invalid => 0
    case Individual => 1
    case Multiseat => 2
    case GameServer => 3
    case AnonGameServer => 4
    case Pending => 5
    case ContentServer => 6
    case Clan => 7
    case Chat => 8
    case P2PSuperSeeder => 9
    case AnonUser => 10
  }

  function InstanceValue(i: Instance): (n: nat)
    ensures n <= 3
  {
    match i
    case All => 0
    case Desktop => 1
    case Console => 2
    case Web => 3
  }

  /** `Universe::try_from(n)`. */
  function UniverseFrom(n: nat, lenient: bool): (r: Result<Universe, IdError>)
    ensures r.Ok? && n <= 4 ==> UniverseValue(r.value) == n
    ensures r.Err? <==> n > 4 && !lenient
    ensures r.Ok? && n > 4 ==> r.value == Universe.Invalid
    ensures r.Err? ==> r.error == InvalidUniverse(n)
  {
    if n == 0 then Ok(Universe.Invalid)
    else if n == 1 then Ok(Public)
    else if n == 2 then Ok(Beta)
    else if n == 3 then Ok(Internal)
    else if n == 4 then Ok(Dev)
    else if lenient then Ok(Universe.Invalid)
    else Err(InvalidUniverse(n))
  }

  /** `Type::try_from(n)`. */
  function TypeFrom(n: nat, lenient: bool): (r: Result<Type, IdError>)
    ensures r.Ok? && n <= 10 ==> TypeValue(r.value) == n
    ensures r.Err? <==> n > 10 && !lenient
    ensures r.Ok? && n > 10 ==> r.value == Type.Invalid
    ensures r.Err? ==> r.error == InvalidType(n)
  {
    if n == 0 then Ok(Type.Invalid)
    else if n == 1 then Ok(Individual)
    else if n == 2 then Ok(Multiseat)
    else if n == 3 then Ok(GameServer)
    else if n == 4 then Ok(AnonGameServer)
    else if n == 5 then Ok(Pending)
    else if n == 6 then Ok(ContentServer)
    else if n == 7 then Ok(Clan)
    else if n == 8 then Ok(Chat)
    else if n == 9 then Ok(P2PSuperSeeder)
    else if n == 10 then Ok(AnonUser)
    else if lenient then Ok(Type.Invalid)
    else Err(InvalidType(n))
  }

  /** `Instance::try_from(n)`. */
  function InstanceFrom(n: nat, lenient: bool): (r: Result<Instance, IdError>)
    ensures r.Ok? && n <= 3 ==> InstanceValue(r.value) == n
    ensures r.Err? <==> n > 3 && !lenient
    ensures r.Ok? && n > 3 ==> r.value == All
    ensures r.Err? ==> r.error == InvalidInstance(n)
  {
    if n == 0 then Ok(All)
    else if n == 1 then Ok(Desktop)
    else if n == 2 then Ok(Console)
    else if n == 3 then Ok(Web)
    else if lenient then Ok(All)
    else Err(InvalidInstance(n))
  }

  /** `TryInto<char> for Type`: the type letter; `P2PSuperSeeder` has none. */
  function TypeToChar(t: Type): (r: Result<char, IdError>)
    ensures r.Err? <==> t == P2PSuperSeeder
    ensures r.Err? ==> r.error == MissingTypeChar(t)
    ensures r.Ok? ==> IsAsciiLetter(r.value) && r.value != 'c' && r.value != 'L'
  {
    match t
    case Invalid => Ok('I')
    case Individual => Ok('U')
    case Multiseat => Ok('M')
    case GameServer => Ok('G')
    case AnonGameServer => Ok('A')
    case Pending => Ok('P')
    case ContentServer => Ok('C')
    case Clan => Ok('g')
    case Chat => Ok('T')
    case AnonUser => Ok('a')
    case P2PSuperSeeder => Err(MissingTypeChar(t))
  }

  /** `TryFrom<char> for Type`: `T`, `L` and `c` all mean a chat. */
  function TypeFromChar(c: char): (r: Result<Type, IdError>)
    ensures r.Ok? && r.value == Chat <==> c == 'T' || c == 'L' || c == 'c'
    ensures r.Err? ==> r.error == InvalidTypeChar(c)
  {
    match c
    case 'I' => Ok(Type.Invalid)
    case 'U' => Ok(Individual)
    case 'M' => Ok(Multiseat)
    case 'G' => Ok(GameServer)
    case 'A' => Ok(AnonGameServer)
    case 'P' => Ok(Pending)
    case 'C' => Ok(ContentServer)
    case 'g' => Ok(Clan)
    case 'T' => Ok(Chat)
    case 'L' => Ok(Chat)
    case 'c' => Ok(Chat)
    case 'a' => Ok(AnonUser)
    case _ => Err(InvalidTypeChar(c))
  }

  /** Every type letter reads back as its type. */
  lemma TypeCharRoundTrip(t: Type)
    ensures TypeToChar(t).Ok? ==> TypeFromChar(TypeToChar(t).value) == Ok(t)
  {
  }

  // ---------------------------------------------------------------------
  // Bits

  /** Bitwise or of two naturals. */
  function Or(a: nat, b: nat): (r: nat)
    ensures a == 0 ==> r == b
    ensures b == 0 ==> r == a
    decreases a + b
  {
    if a == 0 then b
    else if b == 0 then a
    else 2 * Or(a / 2, b / 2) + (if a % 2 == 1 || b % 2 == 1 then 1 else 0)
  }

  function Pow2(k: nat): (r: nat)
    ensures r > 0
  {
    if k == 0 then 1 else 2 * Pow2(k - 1)
  }

  /** On disjoint bits, or is addition. */
  lemma {:induction false} OrDisjoint(x: nat, k: nat, b: nat)
    requires b < Pow2(k)
    ensures Or(x * Pow2(k), b) == x * Pow2(k) + b
    decreases k
  {
    if k > 0 && x * Pow2(k) != 0 && b != 0 {
      var a := x * Pow2(k);
      assert a == 2 * (x * Pow2(k - 1));
      assert a / 2 == x * Pow2(k - 1) && a % 2 == 0;
      OrDisjoint(x, k - 1, b / 2);
    }
  }

  lemma Pow2Values()
    ensures Pow2(32) == TWO_32 && Pow2(52) == TWO_52 && Pow2(56) == TWO_56
  {
    assert Pow2(8) == 0x100;
    assert Pow2(16) == 0x1_0000;
    assert Pow2(24) == 0x100_0000;
    assert Pow2(32) == TWO_32;
    assert Pow2(40) == 0x100_0000_0000;
    assert Pow2(48) == 0x1_0000_0000_0000;
    assert Pow2(52) == TWO_52;
    assert Pow2(56) == TWO_56;
  }

  /** `to_u64`: `universe << 56 | type << 52 | instance << 32 | account`. */
  function ToU64(id: Id): nat {
    Pack(UniverseValue(id.universe), TypeValue(id.type_), InstanceValue(id.instance), id.account)
  }

  function Pack(u: nat, t: nat, i: nat, a: nat): nat {
    Or(Or(Or(u * TWO_56, t * TWO_52), i * TWO_32), a)
  }

  /** With an account below 2^32 the four fields occupy disjoint bits, and the packing is a sum. */
  lemma ToU64Layout(id: Id)
    requires id.account < TWO_32
    ensures ToU64(id) == UniverseValue(id.universe) * TWO_56 + TypeValue(id.type_) * TWO_52 +
                         InstanceValue(id.instance) * TWO_32 + id.account
    ensures ToU64(id) < TWO_64
  {
    PackLayout(UniverseValue(id.universe), TypeValue(id.type_), InstanceValue(id.instance), id.account);
  }

  lemma PackLayout(u: nat, t: nat, i: nat, a: nat)
    requires u < 0x100 && t < 16 && i < 0x10_0000 && a < TWO_32
    ensures Pack(u, t, i, a) == u * TWO_56 + t * TWO_52 + i * TWO_32 + a
    ensures Pack(u, t, i, a) < TWO_64
  {
    var high := u * TWO_56 + t * TWO_52;
    assert Or(u * TWO_56, t * TWO_52) == high by {
      OrHigh(u, t);
    }
    var k1 := u * 16 + t;
    assert high == k1 * TWO_52;
    var middle := high + i * TWO_32;
    assert Or(high, i * TWO_32) == middle by {
      OrMiddle(k1, i);
    }
    var k2 := k1 * 0x10_0000 + i;
    assert middle == k2 * TWO_32;
    assert Or(middle, a) == middle + a by {
      OrLow(k2, a);
    }
  }

  lemma OrHigh(u: nat, t: nat)
    requires t < 16
    ensures Or(u * TWO_56, t * TWO_52) == u * TWO_56 + t * TWO_52
  {
    Pow2Values();
    OrDisjoint(u, 56, t * TWO_52);
  }

  lemma OrMiddle(k: nat, i: nat)
    requires i < 0x10_0000
    ensures Or(k * TWO_52, i * TWO_32) == k * TWO_52 + i * TWO_32
  {
    Pow2Values();
    OrDisjoint(k, 52, i * TWO_32);
  }

  lemma OrLow(k: nat, a: nat)
    requires a < TWO_32
    ensures Or(k * TWO_32, a) == k * TWO_32 + a
  {
    Pow2Values();
    OrDisjoint(k, 32, a);
  }

  /** `from_u64`: account from bits 0-31, instance 32-51, type 52-55, universe 56-63. */
  function FromU64(v: U64, lenient: bool): (r: Result<Id, IdError>)
    ensures r.Ok? ==> r.value.account == v % TWO_32
  {
    var account := v % TWO_32;
    match InstanceFrom((v / TWO_32) % 0x10_0000, lenient)
    case Err(e) => Err(e)
    case Ok(instance) =>
      match TypeFrom((v / TWO_52) % 16, lenient)
      case Err(e) => Err(e)
      case Ok(t) =>
        match UniverseFrom(v / TWO_56, lenient)
        case Err(e) => Err(e)
        case Ok(u) => Ok(Id(u, t, instance, account))
  }

  /** Decoding undoes packing for every id whose account fits in 32 bits. */
  lemma FromU64ToU64(id: Id, lenient: bool)
    requires id.account < TWO_32
    ensures ToU64(id) < TWO_64 && FromU64(ToU64(id), lenient) == Ok(id)
  {
    ToU64Layout(id);
    var u, t, i := UniverseValue(id.universe), TypeValue(id.type_), InstanceValue(id.instance);
    Unpack(u, t, i, id.account);
    InstanceFromValue(id.instance, lenient);
    UniverseFromValue(id.universe, lenient);
  }

  /** The fields of a packed id read back from their bit ranges. */
  lemma Unpack(u: nat, t: nat, i: nat, a: nat)
    requires u < 0x100 && t < 16 && i < 0x10_0000 && a < TWO_32
    ensures var v := u * TWO_56 + t * TWO_52 + i * TWO_32 + a;
            v % TWO_32 == a && (v / TWO_32) % 0x10_0000 == i && (v / TWO_52) % 16 == t && v / TWO_56 == u
  {
    var v := u * TWO_56 + t * TWO_52 + i * TWO_32 + a;
    var q := u * 0x100_0000 + t * 0x10_0000 + i;
    assert v % TWO_32 == a && v / TWO_32 == q by {
      assert v == q * TWO_32 + a;
    }
    assert q % 0x10_0000 == i by {
      assert q == (u * 16 + t) * 0x10_0000 + i;
    }
    assert v / TWO_52 == u * 16 + t by {
      assert v == (u * 16 + t) * TWO_52 + (i * TWO_32 + a);
    }
    assert v / TWO_56 == u by {
      assert v == u * TWO_56 + (t * TWO_52 + i * TWO_32 + a);
    }
  }

  /** `from_account_id`: a public individual desktop account. */
  function FromAccountId(account: U64): (r: Id)
    ensures r.universe == Public && r.type_ == Individual && r.instance == Desktop && r.account == account
  {
    Id(Public, Individual, Desktop, account)
  }

  /** `Default`: the invalid id, all fields zero. */
  function Default(): (r: Id)
    ensures ToU64(r) == 0
  {
    Id(Universe.Invalid, Type.Invalid, All, 0)
  }

  // ---------------------------------------------------------------------
  // Text forms

  /** `to_steam2`: only individual accounts; universe 1 is written 0 in the old format. */
  function ToSteam2(id: Id, newFormat: bool): (r: Result<string, IdError>)
    ensures r.Err? <==> id.type_ != Individual
    ensures r.Err? ==> r.error == IncompatibleVersion
  {
    if id.type_ != Individual then Err(IncompatibleVersion)
    else
      var u := UniverseValue(id.universe);
      var u' := if !newFormat && u == 1 then 0 else u;
      Ok("STEAM_" + NatToString(u') + ":" + NatToString(id.account % 2) + ":" + NatToString(id.account / 2))
  }

  /** Whether `to_steam3` appends the instance. */
  predicate UsesInstance(id: Id) {
    id.type_ == AnonGameServer || id.type_ == Multiseat ||
    (id.type_ == Individual && id.instance != Desktop)
  }

  /** `to_steam3`: the type letter (`c`/`L` when the chat flag bits of the instance are set), universe, account, and the instance when `UsesInstance`. */
  function ToSteam3(id: Id): (r: Result<string, IdError>)
    ensures r.Err? <==> id.type_ == P2PSuperSeeder
  {
    match TypeToChar(id.type_)
    case Err(e) => Err(e)
    case Ok(c0) =>
      var inst := InstanceValue(id.instance);
      var c1 := if (inst / 0x8_0000) % 2 == 1 then 'c' else c0;
      var c := if (inst / 0x4_0000) % 2 == 1 then 'L' else c1;
      Ok("[" + [c] + ":" + NatToString(UniverseValue(id.universe)) + ":" + NatToString(id.account) +
         (if UsesInstance(id) then ":" + NatToString(inst) else "") + "]")
  }

  /** The captures of `^STEAM_([0-9]):([0-1]):([0-9]+)$`. */
  function MatchSteam2(s: string): (r: Option<(char, char, string)>)
    ensures r.Some? ==> IsDigit(r.value.0) && (r.value.1 == '0' || r.value.1 == '1') &&
                        |r.value.2| > 0 && AllDigits(r.value.2)
    ensures r.Some? ==> s == "STEAM_" + [r.value.0] + ":" + [r.value.1] + ":" + r.value.2
  {
    if |s| >= 11 && s[..6] == "STEAM_" && IsDigit(s[6]) && s[7] == ':' && (s[8] == '0' || s[8] == '1') &&
       s[9] == ':' && AllDigits(s[10..])
    then
      assert s == s[..6] + [s[6]] + ":" + [s[8]] + ":" + s[10..];
      Some((s[6], s[8], s[10..]))
    else None
  }

  /** The captures of `^\[([a-zA-Z]):([0-5]):([0-9]+)(:[0-9]+)?]$`; the fourth keeps its `:`. */
  function MatchSteam3(s: string): (r: Option<(char, char, string, Option<string>)>)
    ensures r.Some? ==> IsAsciiLetter(r.value.0) && '0' <= r.value.1 <= '5' &&
                        |r.value.2| > 0 && AllDigits(r.value.2)
    ensures r.Some? && r.value.3.None? ==> s == "[" + [r.value.0] + ":" + [r.value.1] + ":" + r.value.2 + "]"
    ensures r.Some? && r.value.3.Some? ==> |r.value.3.value| > 1 && r.value.3.value[0] == ':'
  {
    if |s| >= 7 && s[0] == '[' && IsAsciiLetter(s[1]) && s[2] == ':' && '0' <= s[3] <= '5' && s[4] == ':' then
      var j := Span(s, 5, IsDigit);
      if j == 5 || j == |s| then None
      else if s[j] == ']' then
        if j + 1 == |s| then
          assert AllDigits(s[5..j]) by { SpanAll(s, 5, IsDigit); assert forall k :: 0 <= k < j - 5 ==> s[5..j][k] == s[5 + k]; }
          assert s == "[" + [s[1]] + ":" + [s[3]] + ":" + s[5..j] + "]";
          Some((s[1], s[3], s[5..j], None))
        else None
      else if s[j] == ':' then
        var k := Span(s, j + 1, IsDigit);
        if k > j + 1 && k + 1 == |s| && s[k] == ']' then
          assert AllDigits(s[5..j]) by { SpanAll(s, 5, IsDigit); assert forall m :: 0 <= m < j - 5 ==> s[5..j][m] == s[5 + m]; }
          Some((s[1], s[3], s[5..j], Some(s[j..k])))
        else None
      else None
    else None
  }

  /** `str::parse::<u64>`. */
  function ParseU64(s: string): (r: Result<U64, IdError>)
    ensures r.Err? ==> r.error == ParseIntError
  {
    match ParseUnsigned(s, TWO_64)
    case Some(n) => Ok(n)
    case None => Err(ParseIntError)
  }

  function DigitValue(c: char): nat
    requires IsDigit(c)
  {
    c as int - '0' as int
  }

  /**
   * The Steam2 branch of `from_str`: universe digit 0 becomes public, and
   * the account is `Z * 2 + Y`, computed in `u64` (wrapping, as in a
   * release build).
   */
  function FromSteam2(x: char, y: char, z: string, lenient: bool): Result<Id, IdError>
    requires IsDigit(x) && IsDigit(y)
  {
    match UniverseFrom(DigitValue(x), lenient)
    case Err(e) => Err(e)
    case Ok(u0) =>
      var u := if u0 == Universe.Invalid then Public else u0;
      match ParseU64(z)
      case Err(e) => Err(e)
      case Ok(zv) => Ok(Id(u, Individual, Desktop, (zv * 2 + DigitValue(y)) % TWO_64))
  }

  /**
   * The Steam3 branch of `from_str`: an instance field is parsed with its
   * leading `:`; `U` without one means desktop; `c` and `L` set a chat flag
   * bit in the instance before it is converted.
   */
  function FromSteam3(c: char, ud: char, acc: string, four: Option<string>, lenient: bool): Result<Id, IdError>
    requires IsDigit(ud)
  {
    match UniverseFrom(DigitValue(ud), lenient)
    case Err(e) => Err(e)
    case Ok(u) =>
      match ParseU64(acc)
      case Err(e) => Err(e)
      case Ok(account) =>
        var inst0: Result<nat, IdError> :=
          if four.None? then Ok(0)
          else match ParseU64(four.value)
            case Err(e) => Err(e)
            case Ok(n) => (match InstanceFrom(n, lenient) case Err(e) => Err(e) case Ok(i) => Ok(InstanceValue(i)));
        match inst0
        case Err(e) => Err(e)
        case Ok(i0) =>
          var typed: Result<(nat, Type), IdError> :=
            if c == 'U' then Ok((if four.None? then 1 else i0, Individual))
            else if c == 'c' then Ok((Or(i0, 0x8_0000), Chat))
            else if c == 'L' then Ok((Or(i0, 0x4_0000), Chat))
            else match TypeFromChar(c) case Err(e) => Err(e) case Ok(t) => Ok((i0, t));
          match typed
          case Err(e) => Err(e)
          case Ok((i, t)) =>
            match InstanceFrom(i, lenient)
            case Err(e) => Err(e)
            case Ok(instance) => Ok(Id(u, t, instance, account))
  }

  /** `FromStr for Id`: Steam2, then Steam3, then a decimal `u64`, else `Unknown`. */
  function FromStr(s: string, lenient: bool): Result<Id, IdError> {
    Decode(s, lenient, true)
  }

  /** `FromStr for Id` with the instance field read without its leading `:`. */
  function FromStrCorrected(s: string, lenient: bool): Result<Id, IdError> {
    Decode(s, lenient, false)
  }

  /**
   * The cascade of `from_str`; `keepColon` says whether the Steam3
   * instance field is parsed with the `:` its capture group includes.
   */
  function Decode(s: string, lenient: bool, keepColon: bool): Result<Id, IdError> {
    match MatchSteam2(s)
    case Some((x, y, z)) => FromSteam2(x, y, z, lenient)
    case None =>
      match MatchSteam3(s)
      case Some((c, ud, acc, four)) =>
        var field := if keepColon || four.None? then four else Some(four.value[1..]);
        FromSteam3(c, ud, acc, field, lenient)
      case None =>
        match ParseU64(s)
        case Ok(v) => FromU64(v, lenient)
        case Err(_) => Err(Unknown)
  }

  lemma UniverseFromValue(u: Universe, lenient: bool)
    ensures UniverseFrom(UniverseValue(u), lenient) == Ok(u)
  {
  }

  lemma InstanceFromValue(i: Instance, lenient: bool)
    ensures InstanceFrom(InstanceValue(i), lenient) == Ok(i)
  {
  }

  /** A run of digits from `i` up to a non-digit at `j` ends at `j`. */
  lemma {:induction false} SpanDigits(s: string, i: nat, j: nat)
    requires i <= j < |s| && !IsDigit(s[j])
    requires forall k :: i <= k < j ==> IsDigit(s[k])
    ensures Span(s, i, IsDigit) == j
    decreases j - i
  {
    if i < j {
      SpanDigits(s, i + 1, j);
    }
  }

  /** A Steam3 text is never a Steam2 text. */
  lemma NotSteam2(s: string)
    requires |s| > 0 && s[0] == '['
    ensures MatchSteam2(s).None?
  {
    if |s| >= 11 {
      assert s[..6][0] == '[';
    }
  }

  /**
   * Every individual desktop id outside the invalid universe reads back
   * from its Steam2 text, in either format.
   */
  lemma Steam2RoundTrip(id: Id, newFormat: bool, lenient: bool)
    requires id.type_ == Individual && id.instance == Desktop && id.universe != Universe.Invalid
    ensures ToSteam2(id, newFormat).Ok?
    ensures FromStr(ToSteam2(id, newFormat).value, lenient) == Ok(id)
  {
    var u := UniverseValue(id.universe);
    var u' := if !newFormat && u == 1 then 0 else u;
    var x, y, z := NatToString(u'), NatToString(id.account % 2), NatToString(id.account / 2);
    var s := ToSteam2(id, newFormat).value;
    assert FromStr(s, lenient) == FromSteam2(x[0], y[0], z, lenient) by {
      assert s == "STEAM_" + x + ":" + y + ":" + z;
      Steam2Captures(x, y, z);
    }
    assert FromSteam2(x[0], y[0], z, lenient) == Ok(id) by {
      Steam2Fields(id, u', lenient);
    }
  }

  /** The three Steam2 fields of an individual desktop id decode to its universe and account. */
  lemma Steam2Fields(id: Id, u': nat, lenient: bool)
    requires id.type_ == Individual && id.instance == Desktop && id.universe != Universe.Invalid
    requires (u' == 0 && id.universe == Public) || u' == UniverseValue(id.universe)
    ensures u' < 10
    ensures FromSteam2(NatToString(u')[0], NatToString(id.account % 2)[0], NatToString(id.account / 2), lenient) == Ok(id)
  {
    var x, y, z := NatToString(u'), NatToString(id.account % 2), NatToString(id.account / 2);
    assert DigitValue(x[0]) == u' by {
      assert x == [DigitChar(u')];
    }
    assert DigitValue(y[0]) == id.account % 2 by {
      assert y == [DigitChar(id.account % 2)];
    }
    assert UniverseFrom(u', lenient) == Ok(if u' == 0 then Universe.Invalid else id.universe) by {
      if u' != 0 {
        UniverseFromValue(id.universe, lenient);
      }
    }
    ParseUnsignedOfNatToString(id.account / 2, TWO_64);
    assert ParseU64(z) == Ok(id.account / 2);
    assert (id.account / 2 * 2 + id.account % 2) % TWO_64 == id.account;
  }

  lemma Steam2Captures(x: string, y: string, z: string)
    requires |x| == 1 && IsDigit(x[0]) && (y == "0" || y == "1") && |z| > 0 && AllDigits(z)
    ensures MatchSteam2("STEAM_" + x + ":" + y + ":" + z) == Some((x[0], y[0], z))
  {
    var s := "STEAM_" + x + ":" + y + ":" + z;
    assert s[..6] == "STEAM_" && s[6] == x[0] && s[7] == ':' && s[8] == y[0] && s[9] == ':' && s[10..] == z;
  }

  /** The Steam3 text of an id, split into the parts `MatchSteam3` captures. */
  lemma Steam3Parts(id: Id)
    requires id.type_ != P2PSuperSeeder
    ensures var c := TypeToChar(id.type_).value;
            var ud := NatToString(UniverseValue(id.universe));
            var a := NatToString(id.account);
            var n := NatToString(InstanceValue(id.instance));
            ToSteam3(id) == Ok("[" + [c] + ":" + ud + ":" + a + (if UsesInstance(id) then ":" + n else "") + "]") &&
            |ud| == 1 && '0' <= ud[0] <= '5'
  {
  }

  /**
   * An id whose Steam3 text carries no instance field reads back from it
   * when the instance is the one `from_str` assumes: desktop for an
   * individual, otherwise all.
   */
  lemma Steam3RoundTrip(id: Id, lenient: bool)
    requires id.type_ != P2PSuperSeeder && !UsesInstance(id)
    requires id.instance == (if id.type_ == Individual then Desktop else All)
    ensures ToSteam3(id).Ok?
    ensures FromStr(ToSteam3(id).value, lenient) == Ok(id)
    ensures FromStrCorrected(ToSteam3(id).value, lenient) == Ok(id)
  {
    Steam3Parts(id);
    var c := TypeToChar(id.type_).value;
    var ud := NatToString(UniverseValue(id.universe));
    var a := NatToString(id.account);
    var s := ToSteam3(id).value;
    assert s == "[" + [c] + ":" + ud + ":" + a + "]";
    var j := 5 + |a|;
    assert s[5..j] == a && s[j] == ']' && j + 1 == |s|;
    assert s[0] == '[' && s[1] == c && s[2] == ':' && s[3] == ud[0] && s[4] == ':';
    SpanDigits(s, 5, j);
    NotSteam2(s);
    assert MatchSteam3(s) == Some((c, ud[0], a, None));
    UniverseFromValue(id.universe, lenient);
    ParseUnsignedOfNatToString(id.account, TWO_64);
    TypeCharRoundTrip(id.type_);
  }

  /**
   * `from_str` as written rejects every Steam3 text that carries an
   * instance field, `to_steam3`'s own output included: the capture keeps
   * the `:` and `parse::<u64>` refuses it.
   */
  lemma Steam3InstanceRejected(id: Id, lenient: bool)
    requires id.type_ != P2PSuperSeeder && UsesInstance(id)
    ensures ToSteam3(id).Ok?
    ensures FromStr(ToSteam3(id).value, lenient) == Err(ParseIntError)
  {
    var s := Steam3InstanceParts(id);
    var four := MatchSteam3(s).value.3.value;
    UniverseFromValue(id.universe, lenient);
    assert ParseUnsigned(four, TWO_64).None? by { assert four[0] == ':'; assert !IsDigit(four[0]); }
  }

  /** With the instance field read without its `:`, every id that has a Steam3 text and that `from_str` can represent reads back. */
  lemma Steam3RoundTripCorrected(id: Id, lenient: bool)
    requires id.type_ != P2PSuperSeeder && UsesInstance(id)
    ensures ToSteam3(id).Ok?
    ensures FromStrCorrected(ToSteam3(id).value, lenient) == Ok(id)
  {
    var s := Steam3InstanceParts(id);
    var n := NatToString(InstanceValue(id.instance));
    assert MatchSteam3(s).value.3.value[1..] == n;
    UniverseFromValue(id.universe, lenient);
    ParseUnsignedOfNatToString(InstanceValue(id.instance), TWO_64);
    InstanceFromValue(id.instance, lenient);
    TypeCharRoundTrip(id.type_);
  }

  /** The captures of a Steam3 text with an instance field. */
  lemma Steam3InstanceParts(id: Id) returns (s: string)
    requires id.type_ != P2PSuperSeeder && UsesInstance(id)
    ensures ToSteam3(id) == Ok(s)
    ensures MatchSteam2(s).None?
    ensures MatchSteam3(s) == Some((TypeToChar(id.type_).value, NatToString(UniverseValue(id.universe))[0],
                                    NatToString(id.account), Some(":" + NatToString(InstanceValue(id.instance)))))
    ensures ParseU64(NatToString(id.account)) == Ok(id.account)
  {
    Steam3Parts(id);
    var c := TypeToChar(id.type_).value;
    var ud := NatToString(UniverseValue(id.universe));
    var a := NatToString(id.account);
    var n := NatToString(InstanceValue(id.instance));
    s := ToSteam3(id).value;
    assert s == "[" + [c] + ":" + ud + ":" + a + ":" + n + "]";
    var j := 5 + |a|;
    var k := j + 1 + |n|;
    assert s[5..j] == a && s[j] == ':' && s[j..k] == ":" + n && s[k] == ']' && k + 1 == |s|;
    assert s[0] == '[' && s[1] == c && s[2] == ':' && s[3] == ud[0] && s[4] == ':';
    SpanDigits(s, 5, j);
    SpanDigits(s, j + 1, k);
    NotSteam2(s);
    ParseUnsignedOfNatToString(id.account, TWO_64);
  }

  /** An id whose account fits in 32 bits reads back from the decimal text of its 64-bit value. */
  lemma DecimalRoundTrip(id: Id, lenient: bool)
    requires id.account < TWO_32
    ensures ToU64(id) < TWO_64
    ensures FromStr(NatToString(ToU64(id)), lenient) == Ok(id)
  {
    FromU64ToU64(id, lenient);
    var s := NatToString(ToU64(id));
    assert IsDigit(s[0]);
    if |s| >= 11 {
      assert s[..6][0] == s[0];
    }
    assert MatchSteam2(s).None?;
    assert MatchSteam3(s).None?;
    ParseUnsignedOfNatToString(ToU64(id), TWO_64);
  }

  /** The crate's `from_u64` test: 76561198006409530 is public account 46143802 on the desktop. */
  lemma FromU64Example(lenient: bool)
    ensures FromU64(76561198006409530, lenient) == Ok(Id(Public, Individual, Desktop, 46143802))
  {
    var id := Id(Public, Individual, Desktop, 46143802);
    ToU64Layout(id);
    FromU64ToU64(id, lenient);
  }

  /** The crate's `parse_steam2_id` test: the Steam2 text names public account 46143802 and renders back, in both formats. */
  lemma Steam2Example(lenient: bool)
    ensures ToSteam2(FromAccountId(46143802), false) == Ok("STEAM_0:0:23071901")
    ensures ToSteam2(FromAccountId(46143802), true) == Ok("STEAM_1:0:23071901")
    ensures FromStr("STEAM_0:0:23071901", lenient) == Ok(FromAccountId(46143802))
  {
    var id := FromAccountId(46143802);
    Steam2Text(id);
    Steam2RoundTrip(id, false, lenient);
  }

  lemma Steam2Text(id: Id)
    requires id == FromAccountId(46143802)
    ensures ToSteam2(id, false) == Ok("STEAM_0:0:23071901")
    ensures ToSteam2(id, true) == Ok("STEAM_1:0:23071901")
  {
    var z := NatToString(id.account / 2);
    DecimalExample(id.account / 2, "23071901");
    var y := NatToString(id.account % 2);
    assert y == [DigitChar(0)] == "0";
    var u := NatToString(UniverseValue(id.universe));
    assert u == [DigitChar(1)] == "1";
    assert ToSteam2(id, false) == Ok("STEAM_" + y + ":" + y + ":" + z);
    assert ToSteam2(id, true) == Ok("STEAM_" + u + ":" + y + ":" + z);
    Steam2Concat(u, y, z);
  }

  /** The crate's `parse_steam3_id` test: the Steam3 text names the same account and renders back. */
  lemma Steam3Example(lenient: bool)
    ensures ToSteam3(FromAccountId(46143802)) == Ok("[U:1:46143802]")
    ensures FromStr("[U:1:46143802]", lenient) == Ok(FromAccountId(46143802))
  {
    var id := FromAccountId(46143802);
    Steam3Text(id);
    Steam3RoundTrip(id, lenient);
  }

  lemma Steam3Text(id: Id)
    requires id == FromAccountId(46143802)
    ensures ToSteam3(id) == Ok("[U:1:46143802]")
  {
    var a := NatToString(id.account);
    DecimalExample(id.account, "46143802");
    var u := NatToString(UniverseValue(id.universe));
    assert u == [DigitChar(1)] == "1";
    Steam3Parts(id);
    assert !UsesInstance(id) && TypeToChar(id.type_) == Ok('U');
    assert ToSteam3(id) == Ok("[" + ['U'] + ":" + u + ":" + a + "" + "]");
    Steam3Concat(u, a);
  }

  lemma Steam2Concat(u: string, y: string, z: string)
    requires u == "1" && y == "0" && z == "23071901"
    ensures "STEAM_" + y + ":" + y + ":" + z == "STEAM_0:0:23071901"
    ensures "STEAM_" + u + ":" + y + ":" + z == "STEAM_1:0:23071901"
  {
  }

  lemma Steam3Concat(u: string, a: string)
    requires u == "1" && a == "46143802"
    ensures "[" + ['U'] + ":" + u + ":" + a + "" + "]" == "[U:1:46143802]"
  {
  }

  /** The decimal text of an eight-digit number. */
  lemma DecimalExample(n: nat, t: string)
    requires (n == 23071901 && t == "23071901") || (n == 46143802 && t == "46143802")
    ensures NatToString(n) == t
  {
    assert DigitsValue(t) == n by {
      EightDigits(t);
    }
    NatToStringOfDigitsValue(t);
  }

  /** The value of eight decimal digits, place by place. */
  lemma EightDigits(t: string)
    requires |t| == 8 && AllDigits(t)
    ensures DigitsValue(t) == Digit(t[0]) * 10_000_000 + Digit(t[1]) * 1_000_000 + Digit(t[2]) * 100_000 +
                              Digit(t[3]) * 10_000 + Digit(t[4]) * 1_000 + Digit(t[5]) * 100 + Digit(t[6]) * 10 + Digit(t[7])
  {
    assert t[..8] == t;
    DigitsValuePrefix(t, 8);
    DigitsValuePrefix(t, 7);
    DigitsValuePrefix(t, 6);
    DigitsValuePrefix(t, 5);
    DigitsValuePrefix(t, 4);
    DigitsValuePrefix(t, 3);
    DigitsValuePrefix(t, 2);
    DigitsValuePrefix(t, 1);
  }

  lemma DigitsValuePrefix(t: string, k: nat)
    requires 0 < k <= |t| && AllDigits(t)
    ensures AllDigits(t[..k]) && AllDigits(t[..k - 1])
    ensures DigitsValue(t[..k]) == DigitsValue(t[..k - 1]) * 10 + Digit(t[k - 1])
  {
    assert t[..k][..k - 1] == t[..k - 1];
  }

  function Digit(c: char): nat {
    if IsDigit(c) then c as int - '0' as int else 0
  }
}
