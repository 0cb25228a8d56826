/**
 * The JSON statements Keybase signs (go/libkb/kbsig.go): the key section
 * naming a key and its relatives, the metadata every signature carries
 * (its place in the signature chain, times, the signing user and key), the
 * key delegation statements and the statement revoking signatures.
 *
 * Keys and users are values carrying the identifiers the statements use.
 * A PGP key's full hash is computed elsewhere and may fail, so it is a
 * Result. The package constants (CanonicalHost, SigExpireIn, the client
 * version and name, the signature version), the clock and the Merkle root
 * the client last saw are an environment passed in; errors are their
 * messages.
 */
module KbSig {
  import opened Wrappers
  import opened JsonValue

  type KID = string

  /** The link types of the delegation statements and of revocation. */
  const EldestType: string := "eldest"
  const SibkeyType: string := "sibkey"
  const SubkeyType: string := "subkey"
  const PGPUpdateType: string := "pgp_update"
  const RevokeType: string := "revoke"

  /** What a PGP key bundle adds: its fingerprint, the key ID taken from it, and its full hash. */
  datatype PgpBundle = PgpBundle(fingerprint: string, keyId: string, fullHash: Result<string, string>)

  /** A GenericKey: its KID, and the PGP bundle when it is one. */
  datatype Key = Key(kid: KID, pgp: Option<PgpBundle>)

  /** A UserBasic: the signing user's UID and name. */
  datatype UserBasic = UserBasic(uid: string, name: string)

  /** A User as the metadata reads it: identity, eldest KID and the last link of its chain, if any. */
  datatype User = User(uid: string, name: string, eldestKid: KID, lastKnownSeqno: int, lastKnownId: Option<string>)

  function Basic(u: User): UserBasic {
    UserBasic(u.uid, u.name)
  }

  datatype Env = Env(
    canonicalHost: string,
    sigExpireIn: int,
    /** The current time, in Unix seconds. */
    now: int,
    clientVersion: string,
    clientName: string,
    signatureVersion: int,
    merkleRoot: Option<Json>)

  datatype KeySection = KeySection(
    key: Key,
    eldestKid: KID,
    parentKid: KID,
    hasRevSig: bool,
    revSig: string,
    signingUser: Option<UserBasic>,
    includePGPHash: bool)

  /** The keys a key section can hold. */
  const KeySectionKeys: set<string> :=
    {"kid", "eldest_kid", "parent_kid", "reverse_sig", "host", "uid", "username", "fingerprint", "key_id", "full_hash"}

  /**
   * KeySection.ToJSON: "kid" always; the eldest and parent KIDs when set;
   * the reverse signature (null when empty) when asked for; the signing
   * user's host, UID and name; and for a PGP key its fingerprint, key ID
   * and, when asked for, its full hash, whose failure is the only error.
   */
  function KeySectionFields(ks: KeySection, host: string): (r: Result<map<string, Json>, string>)
    ensures r.Err? <==> ks.key.pgp.Some? && ks.includePGPHash && ks.key.pgp.value.fullHash.Err?
    ensures r.Err? ==> r.error == ks.key.pgp.value.fullHash.error
    ensures r.Ok? ==> r.value.Keys <= KeySectionKeys && "kid" in r.value && r.value["kid"] == JString(ks.key.kid)
  {
    var m0 := map["kid" := JString(ks.key.kid)];
    var m1 := if ks.eldestKid != "" then m0["eldest_kid" := JString(ks.eldestKid)] else m0;
    var m2 := if ks.parentKid != "" then m1["parent_kid" := JString(ks.parentKid)] else m1;
    var m3 := if ks.hasRevSig then m2["reverse_sig" := if ks.revSig != "" then JString(ks.revSig) else JNull] else m2;
    var m4 := if ks.signingUser.Some? then
                m3["host" := JString(host)]["uid" := JString(ks.signingUser.value.uid)]
                  ["username" := JString(ks.signingUser.value.name)]
              else m3;
    if ks.key.pgp.None? then Ok(m4)
    else
      var pgp := ks.key.pgp.value;
      var m5 := m4["fingerprint" := JString(pgp.fingerprint)]["key_id" := JString(pgp.keyId)];
      if !ks.includePGPHash then Ok(m5)
      else
        match pgp.fullHash
        case Err(e) => Err(e)
        case Ok(h) => Ok(m5["full_hash" := JString(h)])
  }

  /** The eldest and parent KIDs appear exactly when they are set. */
  lemma KeySectionKids(ks: KeySection, host: string)
    requires KeySectionFields(ks, host).Ok?
    ensures var m := KeySectionFields(ks, host).value;
            && ("eldest_kid" in m <==> ks.eldestKid != "")
            && (ks.eldestKid != "" ==> m["eldest_kid"] == JString(ks.eldestKid))
            && ("parent_kid" in m <==> ks.parentKid != "")
            && (ks.parentKid != "" ==> m["parent_kid"] == JString(ks.parentKid))
  {
  }

  /** The reverse signature appears exactly when asked for, null when it is empty. */
  lemma KeySectionRevSig(ks: KeySection, host: string)
    requires KeySectionFields(ks, host).Ok?
    ensures var m := KeySectionFields(ks, host).value;
            && ("reverse_sig" in m <==> ks.hasRevSig)
            && (ks.hasRevSig ==> m["reverse_sig"] == if ks.revSig != "" then JString(ks.revSig) else JNull)
  {
  }

  /** The host, UID and username appear exactly when there is a signing user. */
  lemma KeySectionSigner(ks: KeySection, host: string)
    requires KeySectionFields(ks, host).Ok?
    ensures var m := KeySectionFields(ks, host).value;
            && ("host" in m <==> ks.signingUser.Some?) && ("uid" in m <==> ks.signingUser.Some?)
            && ("username" in m <==> ks.signingUser.Some?)
            && (ks.signingUser.Some? ==>
                  m["host"] == JString(host) && m["uid"] == JString(ks.signingUser.value.uid)
                  && m["username"] == JString(ks.signingUser.value.name))
  {
  }

  /**
   * The fingerprint and key ID appear exactly for a PGP key, and its full
   * hash exactly when it is also asked for.
   */
  lemma KeySectionPgp(ks: KeySection, host: string)
    requires KeySectionFields(ks, host).Ok?
    ensures var m := KeySectionFields(ks, host).value;
            && ("fingerprint" in m <==> ks.key.pgp.Some?) && ("key_id" in m <==> ks.key.pgp.Some?)
            && (ks.key.pgp.Some? ==>
                  m["fingerprint"] == JString(ks.key.pgp.value.fingerprint)
                  && m["key_id"] == JString(ks.key.pgp.value.keyId))
            && ("full_hash" in m <==> ks.key.pgp.Some? && ks.includePGPHash)
            && ("full_hash" in m ==> m["full_hash"] == JString(ks.key.pgp.value.fullHash.value))
  {
  }

  datatype ProofMetadata = ProofMetadata(
    me: Option<User>,
    signingUser: Option<UserBasic>,
    lastSeqno: int,
    prevLinkId: string,
    linkType: string,
    signingKey: Key,
    eldest: KID,
    creationTime: int,
    expireIn: int,
    includePGPHash: bool)

  /**
   * What ProofMetadata.ToJSON demands: without a last seqno, or without an
   * eldest KID, it reads them from Me, which must then be set (the source
   * dereferences it).
   */
  predicate MetadataReady(arg: ProofMetadata) {
    (arg.lastSeqno > 0 || arg.me.Some?) && (arg.eldest != "" || arg.me.Some?)
  }

  /** The seqno of the new link and the ID of the link before it (null for the first link). */
  function SeqnoAndPrev(arg: ProofMetadata): (sp: (int, Json))
    requires arg.lastSeqno > 0 || arg.me.Some?
    ensures arg.lastSeqno > 0 ==> sp == (arg.lastSeqno + 1, JString(arg.prevLinkId))
    ensures arg.lastSeqno <= 0 && arg.me.value.lastKnownId.None? ==> sp == (1, JNull)
    ensures arg.lastSeqno <= 0 && arg.me.value.lastKnownId.Some? ==>
              sp == (arg.me.value.lastKnownSeqno + 1, JString(arg.me.value.lastKnownId.value))
  {
    if arg.lastSeqno > 0 then (arg.lastSeqno + 1, JString(arg.prevLinkId))
    else
      match arg.me.value.lastKnownId
      case None => (1, JNull)
      case Some(id) => (arg.me.value.lastKnownSeqno + 1, JString(id))
  }

  /**
   * The two sources of the chain tip agree: an explicit last seqno and
   * previous link give the same seqno and prev as a user whose sigchain
   * ends at that link.
   */
  lemma ExplicitTipAgreesWithChain(arg: ProofMetadata, u: User)
    requires arg.lastSeqno > 0
    requires u.lastKnownSeqno == arg.lastSeqno && u.lastKnownId == Some(arg.prevLinkId)
    ensures SeqnoAndPrev(arg) == SeqnoAndPrev(arg.(lastSeqno := 0, me := Some(u)))
  {
  }

  /**
   * The new link extends the chain: its seqno is one past the tip, so at
   * least 1 for a chain of non-negative seqnos, and its prev is null only
   * when it is the first link.
   */
  lemma NewLinkExtendsChain(arg: ProofMetadata)
    requires arg.lastSeqno > 0 || (arg.me.Some? && arg.me.value.lastKnownSeqno >= 0)
    ensures SeqnoAndPrev(arg).0 >= 1
    ensures SeqnoAndPrev(arg).0 == 1 + (if arg.lastSeqno > 0 then arg.lastSeqno
                                         else if arg.me.value.lastKnownId.Some? then arg.me.value.lastKnownSeqno else 0)
    ensures SeqnoAndPrev(arg).1 == JNull ==> SeqnoAndPrev(arg).0 == 1 && arg.lastSeqno <= 0
  {
  }

  /** The key section of the metadata: the signing key, the eldest KID (Me's by default), the signing user (Me by default). */
  function MetadataKeySection(arg: ProofMetadata): (ks: KeySection)
    requires MetadataReady(arg)
    ensures ks.eldestKid == if arg.eldest != "" then arg.eldest else arg.me.value.eldestKid
    ensures ks.signingUser == if arg.signingUser.None? && arg.me.Some? then Some(Basic(arg.me.value)) else arg.signingUser
    ensures !ks.hasRevSig && ks.parentKid == ""
  {
    var signer := if arg.signingUser.None? && arg.me.Some? then Some(Basic(arg.me.value)) else arg.signingUser;
    var eldest := if arg.eldest == "" then arg.me.value.eldestKid else arg.eldest;
    KeySection(arg.signingKey, eldest, "", false, "", signer, arg.includePGPHash)
  }

  /** The keys of a metadata statement, besides the optional "merkle_root". */
  const MetadataKeys: set<string> := {"tag", "ctime", "expire_in", "seqno", "prev", "body", "client"}

  /** The keys of a fresh statement body. */
  const BodyKeys: set<string> := {"version", "type", "key"}

  /** The body of a statement, or nothing when it has none. */
  function Body(j: Json): map<string, Json> {
    if j.JObject? && "body" in j.fields && j.fields["body"].JObject? then j.fields["body"].fields else map[]
  }

  /**
   * ProofMetadata.ToJSON: "tag" is "signature"; ctime and expire_in take
   * their defaults when zero; seqno and prev follow the chain; the body has
   * the signature version, the link type and the key section; the client
   * is described; the Merkle root is added when there is one. The only
   * error is the key section's.
   */
  function ProofMetadataToJson(arg: ProofMetadata, env: Env): (r: Result<Json, string>)
    requires MetadataReady(arg)
    ensures r.Err? <==> KeySectionFields(MetadataKeySection(arg), env.canonicalHost).Err?
    ensures r.Err? ==> r.error == KeySectionFields(MetadataKeySection(arg), env.canonicalHost).error
    ensures r.Ok? ==> r.value.JObject? && var m := r.value.fields;
              && m.Keys == MetadataKeys + (if env.merkleRoot.Some? then {"merkle_root"} else {})
              && Body(r.value).Keys == BodyKeys
              && Body(r.value)["version"] == JInt(env.signatureVersion)
              && Body(r.value)["type"] == JString(arg.linkType)
              && Body(r.value)["key"] == JObject(KeySectionFields(MetadataKeySection(arg), env.canonicalHost).value)
  {
    var (seqno, prev) := SeqnoAndPrev(arg);
    var ctime := if arg.creationTime == 0 then env.now else arg.creationTime;
    var ei := if arg.expireIn == 0 then env.sigExpireIn else arg.expireIn;
    match KeySectionFields(MetadataKeySection(arg), env.canonicalHost)
    case Err(e) => Err(e)
    case Ok(key) =>
      var body := map["version" := JInt(env.signatureVersion), "type" := JString(arg.linkType), "key" := JObject(key)];
      var client := map["version" := JString(env.clientVersion), "name" := JString(env.clientName)];
      var ret := map["tag" := JString("signature"), "ctime" := JInt(ctime), "expire_in" := JInt(ei),
                     "seqno" := JInt(seqno), "prev" := prev, "body" := JObject(body), "client" := JObject(client)];
      Ok(JObject(if env.merkleRoot.Some? then ret["merkle_root" := env.merkleRoot.value] else ret))
  }

  /**
   * The metadata's own fields: "tag" is "signature", ctime and expire_in
   * take their defaults when zero, seqno and prev follow the chain, the
   * client is described and the Merkle root is the one seen.
   */
  lemma MetadataFields(arg: ProofMetadata, env: Env)
    requires MetadataReady(arg) && ProofMetadataToJson(arg, env).Ok?
    ensures var m := ProofMetadataToJson(arg, env).value.fields;
            && m["tag"] == JString("signature")
            && m["ctime"] == JInt(if arg.creationTime == 0 then env.now else arg.creationTime)
            && m["expire_in"] == JInt(if arg.expireIn == 0 then env.sigExpireIn else arg.expireIn)
            && m["seqno"] == JInt(SeqnoAndPrev(arg).0) && m["prev"] == SeqnoAndPrev(arg).1
            && m["client"] == JObject(map["version" := JString(env.clientVersion), "name" := JString(env.clientName)])
            && (env.merkleRoot.Some? ==> m["merkle_root"] == env.merkleRoot.value)
  {
  }

  /** A device being delegated to; its other fields go only through its export. */
  datatype Device = Device(id: string, kid: KID)

  /** A Delegator as KeyProof reads it; the signing key is the one GetSigningKey picks. */
  datatype Delegator = Delegator(
    delegationType: string,
    newKey: Option<Key>,
    existingKey: Option<Key>,
    revSig: string,
    me: Option<User>,
    signingUser: Option<UserBasic>,
    expire: int,
    signingKey: Key,
    eldestKid: KID,
    ctime: int,
    lastSeqno: int,
    prevLinkId: string,
    device: Option<Device>)

  /** Whether KeyProof builds a key section for the new key. */
  predicate BuildsSection(arg: Delegator) {
    arg.delegationType != EldestType && arg.newKey.Some?
  }

  /** Whether the section is that of a plain (subkey-like) delegation, signed by the existing key. */
  predicate ParentDelegation(arg: Delegator) {
    BuildsSection(arg) && arg.delegationType != PGPUpdateType && arg.delegationType != SibkeyType
  }

  /**
   * What KeyProof demands: the metadata's demands; an existing key for a
   * delegation other than eldest, sibkey and pgp_update; a new key when
   * a device is given (its KID is the new key's).
   */
  predicate DelegatorReady(arg: Delegator) {
    && (arg.lastSeqno > 0 || arg.me.Some?) && (arg.eldestKid != "" || arg.me.Some?)
    && (ParentDelegation(arg) ==> arg.existingKey.Some?)
    && (arg.device.Some? ==> arg.newKey.Some?)
  }

  /** The key section KeyProof builds for the new key, by delegation type. */
  function DelegatedSection(arg: Delegator): (ks: KeySection)
    requires BuildsSection(arg) && (ParentDelegation(arg) ==> arg.existingKey.Some?)
    ensures ks.key == arg.newKey.value && ks.eldestKid == "" && ks.signingUser.None?
  {
    var base := KeySection(arg.newKey.value, "", "", false, "", None, false);
    if arg.delegationType == PGPUpdateType then base.(includePGPHash := true)
    else if arg.delegationType == SibkeyType then base.(hasRevSig := true, revSig := arg.revSig, includePGPHash := true)
    else base.(parentKid := arg.existingKey.value.kid)
  }

  /** The metadata of a delegation: the full hash of the signing key is included for an eldest key. */
  function DelegationMetadata(arg: Delegator): (md: ProofMetadata)
    ensures md.includePGPHash <==> arg.delegationType == EldestType
    ensures md.linkType == arg.delegationType && md.signingKey == arg.signingKey
  {
    ProofMetadata(arg.me, arg.signingUser, arg.lastSeqno, arg.prevLinkId, arg.delegationType,
                  arg.signingKey, arg.eldestKid, arg.ctime, arg.expire, arg.delegationType == EldestType)
  }

  /**
   * KeyProof: the delegation's key section, then the metadata, then the
   * exported device (with the new key's KID) under "device" and the
   * section under the delegation type, in that order, in the body.
   */
  function KeyProof(arg: Delegator, env: Env, exportDevice: (Device, string) -> Result<Json, string>): (r: Result<Json, string>)
    requires DelegatorReady(arg)
  {
    var kp := if BuildsSection(arg) then KeySectionFields(DelegatedSection(arg), env.canonicalHost) else Ok(map[]);
    if kp.Err? then Err(kp.error)
    else
      match ProofMetadataToJson(DelegationMetadata(arg), env)
      case Err(e) => Err(e)
      case Ok(ret) =>
        var exported := if arg.device.Some? then exportDevice(arg.device.value.(kid := arg.newKey.value.kid), arg.delegationType) else Ok(JNull);
        if exported.Err? then Err(exported.error)
        else
          var body := Body(ret);
          var body1 := if arg.device.Some? then body["device" := exported.value] else body;
          var body2 := if BuildsSection(arg) then body1[arg.delegationType := JObject(kp.value)] else body1;
          Ok(JObject(ret.fields["body" := JObject(body2)]))
  }

  /** KeyProof fails exactly when the key section, the metadata or the device export does. */
  lemma KeyProofErrors(arg: Delegator, env: Env, exportDevice: (Device, string) -> Result<Json, string>)
    requires DelegatorReady(arg)
    ensures var sectionFails := BuildsSection(arg) && KeySectionFields(DelegatedSection(arg), env.canonicalHost).Err?;
            var metadataFails := ProofMetadataToJson(DelegationMetadata(arg), env).Err?;
            var exportFails := arg.device.Some? && exportDevice(arg.device.value.(kid := arg.newKey.value.kid), arg.delegationType).Err?;
            KeyProof(arg, env, exportDevice).Err? <==> sectionFails || metadataFails || exportFails
  {
  }

  /**
   * A KeyProof statement is its metadata with a larger body: the body keeps
   * the metadata's version, type and key, holds the exported device when
   * one was given, and the key section under the delegation type exactly
   * when one was built (for a type that does not collide with those keys).
   */
  lemma KeyProofBody(arg: Delegator, env: Env, exportDevice: (Device, string) -> Result<Json, string>)
    requires DelegatorReady(arg) && KeyProof(arg, env, exportDevice).Ok?
    requires arg.delegationType !in BodyKeys + {"device"}
    ensures var r := KeyProof(arg, env, exportDevice).value;
            var md := ProofMetadataToJson(DelegationMetadata(arg), env).value;
            && r.JObject? && r.fields.Keys == md.fields.Keys
            && (forall k :: k in r.fields && k != "body" ==> r.fields[k] == md.fields[k])
            && (arg.delegationType in Body(r) <==> BuildsSection(arg))
            && (BuildsSection(arg) ==>
                  Body(r)[arg.delegationType] == JObject(KeySectionFields(DelegatedSection(arg), env.canonicalHost).value))
            && ("device" in Body(r) <==> arg.device.Some?)
            && (arg.device.Some? ==> Body(r)["device"] == exportDevice(arg.device.value.(kid := arg.newKey.value.kid), arg.delegationType).value)
            && (forall k :: k in BodyKeys ==> k in Body(r) && Body(r)[k] == Body(md)[k])
  {
  }

  /**
   * What each delegation type puts in its key section: a sibkey carries the
   * reverse signature (null when empty) and the full hash of a PGP key; a
   * pgp_update only the full hash; any other type names the existing key
   * as parent and never carries either. An eldest delegation has no
   * section, and includes the full hash in the metadata's key instead.
   */
  lemma DelegationSections(arg: Delegator, env: Env)
    requires DelegatorReady(arg)
    ensures BuildsSection(arg) && KeySectionFields(DelegatedSection(arg), env.canonicalHost).Ok? ==>
              var m := KeySectionFields(DelegatedSection(arg), env.canonicalHost).value;
              && ("reverse_sig" in m <==> arg.delegationType == SibkeyType)
              && (arg.delegationType == SibkeyType ==> m["reverse_sig"] == if arg.revSig != "" then JString(arg.revSig) else JNull)
              && ("full_hash" in m <==> arg.newKey.value.pgp.Some? && (arg.delegationType in {SibkeyType, PGPUpdateType}))
              && ("parent_kid" in m <==> ParentDelegation(arg) && arg.existingKey.value.kid != "")
              && (ParentDelegation(arg) && arg.existingKey.value.kid != "" ==> m["parent_kid"] == JString(arg.existingKey.value.kid))
              && "eldest_kid" !in m && "username" !in m
    ensures arg.delegationType == EldestType ==>
              var md := DelegationMetadata(arg);
              MetadataKeySection(md).includePGPHash
              && (KeySectionFields(MetadataKeySection(md), env.canonicalHost).Ok? ==>
                    ("full_hash" in KeySectionFields(MetadataKeySection(md), env.canonicalHost).value <==> arg.signingKey.pgp.Some?))
  {
  }

  /**
   * A SigID formatted for a statement: SigID.ToString(true) is not part of
   * this model, so the formatting is passed in.
   */
  type SigIDFormat = string -> string

  /** The "sig_ids" array: each ID as a string, filled slot by slot. */
  method SigIdsArray(ids: seq<string>, format: SigIDFormat) returns (items: seq<Json>)
    ensures |items| == |ids|
    ensures forall i :: 0 <= i < |ids| ==> items[i] == JString(format(ids[i]))
  {
    var a := new Json[|ids|](_ => JNull);
    var i := 0;
    while i < |ids|
      invariant 0 <= i <= |ids|
      invariant forall j :: 0 <= j < i ==> a[j] == JString(format(ids[j]))
    {
      a[i] := JString(format(ids[i]));
      i := i + 1;
    }
    items := a[..];
  }

  /** The metadata of a revocation signed by a user with a key. */
  function RevokeMetadata(me: User, key: Key): (md: ProofMetadata)
    ensures MetadataReady(md) && !md.includePGPHash && md.linkType == RevokeType
  {
    ProofMetadata(Some(me), None, 0, "", RevokeType, key, "", 0, 0, false)
  }

  /**
   * RevokeSigsProof: the revocation metadata, with "revoke" in the body
   * holding the IDs, in order, under "sig_ids". Its metadata never asks
   * for a full hash, so it cannot fail.
   */
  method RevokeSigsProof(me: User, key: Key, ids: seq<string>, env: Env, format: SigIDFormat) returns (r: Result<Json, string>)
    ensures r.Ok?
    ensures var md := ProofMetadataToJson(RevokeMetadata(me, key), env);
            && md.Ok?
            && r.value.JObject? && r.value.fields.Keys == md.value.fields.Keys
            && (forall k :: k in r.value.fields && k != "body" ==> r.value.fields[k] == md.value.fields[k])
            && Body(r.value).Keys == BodyKeys + {"revoke"}
            && (forall k :: k in BodyKeys ==> Body(r.value)[k] == Body(md.value)[k])
    ensures "revoke" in Body(r.value) && Body(r.value)["revoke"].JObject?
    ensures var revoke := Body(r.value)["revoke"].fields;
            && revoke.Keys == {"sig_ids"} && revoke["sig_ids"].JArray?
            && |revoke["sig_ids"].items| == |ids|
            && forall i :: 0 <= i < |ids| ==> revoke["sig_ids"].items[i] == JString(format(ids[i]))
  {
    var md := ProofMetadataToJson(RevokeMetadata(me, key), env);
    var ret := md.value;
    var items := SigIdsArray(ids, format);
    var body := Body(ret)["revoke" := JObject(map["sig_ids" := JArray(items)])];
    r := Ok(JObject(ret.fields["body" := JObject(body)]));
  }
}
