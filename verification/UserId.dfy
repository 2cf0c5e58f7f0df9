/** User ids, packed into 42 bits, and the decimal display ids that carry a user's server and account. */
module UserId {
  import opened Common
  import opened Bits
  import GlobalId
  import D = Decimal

  // ----- The packed user id -----

  /* No field is masked; only the platform can be shifted beyond 64 bits. */
  function GenUserUid(platform: word, channel: word, group: word, role: word, account: nat): nat {
    Or(Or(Or(Or(Shl(platform, 40) % U64, Shl(channel, 32)), Shl(group, 21)), Shl(role, 18)), account)
  }

  function GetPlatform(uid: nat): nat { And(Shr(uid, 40), 0x3) }
  function GetChannelId(uid: nat): nat { And(Shr(uid, 32), 0xFF) }
  function GetSrvGroupId(uid: nat): nat { And(Shr(uid, 21), 0x7FF) }
  function GetRoleIndex(uid: nat): nat { And(Shr(uid, 18), 0x7) }
  function GetAccountId(uid: nat): nat { And(uid, 0x3FFFF) }

  function PackUid(platform: nat, channel: nat, group: nat, role: nat, account: nat): nat {
    (((platform * 256 + channel) * 0x800 + group) * 8 + role) * 0x4_0000 + account
  }

  predicate InRange(platform: nat, channel: nat, group: nat, role: nat, account: nat) {
    platform < 4 && channel < 256 && group < 0x800 && role < 8 && account < 0x4_0000
  }

  lemma Getters(uid: nat)
    ensures GetPlatform(uid) == uid / 0x100_0000_0000 % 4
    ensures GetChannelId(uid) == uid / 0x1_0000_0000 % 256
    ensures GetSrvGroupId(uid) == uid / 0x20_0000 % 0x800
    ensures GetRoleIndex(uid) == uid / 0x4_0000 % 8
    ensures GetAccountId(uid) == uid % 0x4_0000
    ensures InRange(GetPlatform(uid), GetChannelId(uid), GetSrvGroupId(uid), GetRoleIndex(uid), GetAccountId(uid))
  {
    hide And;
    GlobalId.Powers();
    AndMask(Shr(uid, 40), 2);
    AndMask(Shr(uid, 32), 8);
    AndMask(Shr(uid, 21), 11);
    AndMask(Shr(uid, 18), 3);
    AndMask(uid, 18);
  }

  lemma GenIsPack(p: word, c: word, g: word, r: word, a: nat)
    requires InRange(p, c, g, r, a)
    ensures GenUserUid(p, c, g, r, a) == PackUid(p, c, g, r, a)
  {
    hide Or;
    GlobalId.Powers();
    assert Shl(p, 40) % U64 == Shl(p, 40);
    GlobalId.AppendField(p, c, 8, 32);
    GlobalId.AppendField(p * 256 + c, g, 11, 21);
    GlobalId.AppendField((p * 256 + c) * 0x800 + g, r, 3, 18);
    OrDisjoint(((p * 256 + c) * 0x800 + g) * 8 + r, a, 18);
  }

  lemma Quotients(p: nat, c: nat, g: nat, r: nat, a: nat)
    requires InRange(p, c, g, r, a)
    ensures var uid := PackUid(p, c, g, r, a);
            && uid < 0x400_0000_0000 && uid % 0x4_0000 == a
            && uid / 0x4_0000 == ((p * 256 + c) * 0x800 + g) * 8 + r
            && uid / 0x20_0000 == (p * 256 + c) * 0x800 + g
            && uid / 0x1_0000_0000 == p * 256 + c
            && uid / 0x100_0000_0000 == p
  {
    var uid := PackUid(p, c, g, r, a);
    DivModUnique(uid, 0x4_0000, ((p * 256 + c) * 0x800 + g) * 8 + r, a);
    DivModUnique(uid, 0x20_0000, (p * 256 + c) * 0x800 + g, r * 0x4_0000 + a);
    DivModUnique(uid, 0x1_0000_0000, p * 256 + c, (g * 8 + r) * 0x4_0000 + a);
    DivModUnique(uid, 0x100_0000_0000, p, ((c * 0x800 + g) * 8 + r) * 0x4_0000 + a);
  }

  lemma LowDigit(hi: nat, base: nat, lo: nat)
    requires lo < base
    ensures (hi * base + lo) % base == lo
  {
    DivModUnique(hi * base + lo, base, hi, lo);
  }

  lemma UnpackUid(p: nat, c: nat, g: nat, r: nat, a: nat)
    requires InRange(p, c, g, r, a)
    ensures var uid := PackUid(p, c, g, r, a);
            && uid < 0x400_0000_0000
            && GetPlatform(uid) == p && GetChannelId(uid) == c && GetSrvGroupId(uid) == g
            && GetRoleIndex(uid) == r && GetAccountId(uid) == a
  {
    hide PackUid, GetPlatform, GetChannelId, GetSrvGroupId, GetRoleIndex, GetAccountId;
    Quotients(p, c, g, r, a);
    Getters(PackUid(p, c, g, r, a));
    LowDigit(0, 4, p);
    LowDigit(p, 256, c);
    LowDigit(p * 256 + c, 0x800, g);
    LowDigit((p * 256 + c) * 0x800 + g, 8, r);
  }

  /** The getters give back the arguments of gen_user_uid exactly when every argument fits its field. */
  lemma UidRoundTripIff(p: word, c: word, g: word, r: word, a: nat)
    ensures var uid := GenUserUid(p, c, g, r, a);
            (GetPlatform(uid), GetChannelId(uid), GetSrvGroupId(uid), GetRoleIndex(uid), GetAccountId(uid))
            == (p, c, g, r, a)
            <==> InRange(p, c, g, r, a)
  {
    hide GetPlatform, GetChannelId, GetSrvGroupId, GetRoleIndex, GetAccountId, PackUid, GenUserUid;
    Getters(GenUserUid(p, c, g, r, a));
    if InRange(p, c, g, r, a) {
      GenIsPack(p, c, g, r, a);
      UnpackUid(p, c, g, r, a);
    }
  }

  /** Where the fields lie: at bits 40, 32, 21, 18 and 0. */
  lemma UidLayout(p: word, c: word, g: word, r: word, a: nat)
    requires p < 4 && c < 256 && g < 2048 && r < 8 && a < 262144
    ensures var uid := GenUserUid(p, c, g, r, a);
            && uid == p * 0x100_0000_0000 + c * 0x1_0000_0000 + g * 0x20_0000 + r * 0x4_0000 + a
            && GetPlatform(uid) == p && GetChannelId(uid) == c && GetSrvGroupId(uid) == g
            && GetRoleIndex(uid) == r && GetAccountId(uid) == a
  {
    hide GenUserUid, GetPlatform, GetChannelId, GetSrvGroupId, GetRoleIndex, GetAccountId;
    GenIsPack(p, c, g, r, a);
    UnpackUid(p, c, g, r, a);
  }

  /** Every 42-bit number is the user id of its own five fields. */
  lemma PackOfFields(uid: nat)
    requires uid < 0x400_0000_0000
    ensures uid
            == PackUid(GetPlatform(uid), GetChannelId(uid), GetSrvGroupId(uid), GetRoleIndex(uid), GetAccountId(uid))
  {
    hide GetPlatform, GetChannelId, GetSrvGroupId, GetRoleIndex, GetAccountId;
    Getters(uid);
    var q18, q21, q32, q40 := uid / 0x4_0000, uid / 0x20_0000, uid / 0x1_0000_0000, uid / 0x100_0000_0000;
    assert q21 == q18 / 8 && q32 == q21 / 0x800 && q40 == q32 / 256 && q40 < 4;
    assert uid == q18 * 0x4_0000 + uid % 0x4_0000;
    assert q18 == q21 * 8 + q18 % 8 && q21 == q32 * 0x800 + q21 % 0x800 && q32 == q40 * 256 + q32 % 256;
  }

  // ----- The display id -----

  function GenUserDid(uid: nat): string {
    D.Print(Or(Shl(GetSrvGroupId(uid), 18), GetAccountId(uid)))
  }

  /* boost::lexical_cast to an unsigned 64-bit integer, which throws on anything that is not a numeral in range. */
  function ParseDid(did: string): Option<nat> {
    if |did| > 0 && D.AllDigits(did) && 0 <= D.Accumulate(0, did) < U64 then Some(D.Accumulate(0, did)) else None
  }

  function ParseUserUidFromDid(did: string, platform: word, channel: word): Option<nat> {
    match ParseDid(did)
    case None => None
    case Some(n) =>
      Masked(n);
      Some(GenUserUid(platform, channel, And(Shr(n, 18), 0x7FF), 0, And(n, 0x3FFFF)))
  }

  lemma Masked(n: nat)
    ensures And(Shr(n, 18), 0x7FF) == n / 0x4_0000 % 0x800 && And(n, 0x3FFFF) == n % 0x4_0000
  {
    hide And;
    GlobalId.Powers();
    AndMask(Shr(n, 18), 11);
    AndMask(n, 18);
  }

  /** The display id is the number made of group and account, printed. */
  lemma DidMeans(uid: nat)
    ensures GenUserDid(uid) == D.Print(uid / 0x20_0000 % 2048 * 0x4_0000 + uid % 0x4_0000)
  {
    hide GetSrvGroupId, GetAccountId, Or;
    Getters(uid);
    DidNumber(GetSrvGroupId(uid), GetAccountId(uid));
  }

  /** Displaying a user id and parsing it back, with the platform and channel it came from, returns the user id
      with its role index cleared. */
  lemma DidRoundTrip(uid: nat)
    requires uid < 0x400_0000_0000
    ensures InRange(GetPlatform(uid), GetChannelId(uid), 0, 0, 0)
    ensures ParseUserUidFromDid(GenUserDid(uid), GetPlatform(uid), GetChannelId(uid))
            == Some(uid - GetRoleIndex(uid) * 0x4_0000)
  {
    hide GetPlatform, GetChannelId, GetSrvGroupId, GetRoleIndex, GetAccountId, Or, ParseUserUidFromDid;
    Getters(uid);
    PackOfFields(uid);
    DidNumber(GetSrvGroupId(uid), GetAccountId(uid));
    DidParses(GetPlatform(uid), GetChannelId(uid), GetSrvGroupId(uid), GetAccountId(uid));
  }

  lemma DidParses(p: word, c: word, g: word, a: nat)
    requires InRange(p, c, g, 0, a)
    ensures ParseUserUidFromDid(D.Print(g * 0x4_0000 + a), p, c) == Some(PackUid(p, c, g, 0, a))
  {
    hide Or, And, Shr, GenUserUid, PackUid;
    var n := g * 0x4_0000 + a;
    D.PrintRoundTrip(n);
    DivModUnique(n, 0x4_0000, g, a);
    Masked(n);
    GenIsPack(p, c, g, 0, a);
  }

  lemma DidNumber(g: nat, a: nat)
    requires a < 0x4_0000
    ensures Or(Shl(g, 18), a) == g * 0x4_0000 + a
  {
    GlobalId.Powers();
    OrDisjoint(g, a, 18);
  }

  /** Conversely, every canonical numeral below 2^29 is the display id of the user id it parses to. */
  lemma DidNumeralRoundTrip(did: string, platform: word, channel: word)
    requires D.Canonical(did) && 0 <= D.Accumulate(0, did) < 0x2000_0000 && platform < 4 && channel < 256
    ensures ParseUserUidFromDid(did, platform, channel).Some?
    ensures GenUserDid(ParseUserUidFromDid(did, platform, channel).value) == did
  {
    hide GetPlatform, GetChannelId, GetSrvGroupId, GetRoleIndex, GetAccountId, Or, And, Shr;
    var n := D.Accumulate(0, did);
    var g, a := n / 0x4_0000, n % 0x4_0000;
    Masked(n);
    assert g < 0x800 && g % 0x800 == g;
    GenIsPack(platform, channel, g, 0, a);
    UnpackUid(platform, channel, g, 0, a);
    DidNumber(g, a);
    D.CanonicalRoundTrip(did);
  }
}
