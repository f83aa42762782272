/**
 The threshold release authority of tools/build_release_authorization.py: `load_root_policy`,
 `sign_release_statement` and `finalize_release_authorization`.

 JSON files arrive parsed, with the schema fields they must carry; digests, key derivation and
 signatures are uninterpreted functions.
 */
module ReleaseAuthority {
  import opened Wrappers
  import opened Base64Url

  const POLICY_SCHEMA := "angerona.release-root-policy/v1"
  const SIGNATURE_SCHEMA := "angerona.release-signature/v1"
  const KEY_BYTES := 32
  const SIGNATURE_BYTES := 64

  type Bytes = seq<Byte>
  type Verifier = (Bytes, Bytes, Bytes) -> bool

  datatype PolicyKey = PolicyKey(signer: string, publicKey: string)

  /** A policy file: its digest, whether its bytes are canonical, and its fields. */
  datatype PolicyFile = PolicyFile(
    digest: string, canonical: bool, schema: string, product: string,
    version: int, threshold: int, keys: seq<PolicyKey>)

  /** A prepared statement: its digest and its canonical bytes. */
  datatype Statement = Statement(sha256: string, canonical: Bytes)

  datatype Response = Response(schema: string, signer: string, statementSha256: string, signature: string)

  // ---------------------------------------------------------------- the enrolled keys

  predicate SignerStart(c: char) { 'A' <= c <= 'Z' || 'a' <= c <= 'z' || '0' <= c <= '9' }

  predicate ValidSigner(s: string) {
    && 3 <= |s| <= 192 && SignerStart(s[0])
    && forall i :: 1 <= i < |s| ==> SignerStart(s[i]) || s[i] in "._:@/-"
  }

  /** Python's order of texts, by code points. */
  predicate TextLess(a: string, b: string) {
    if b == "" then false
    else a == "" || a[0] < b[0] || (a[0] == b[0] && TextLess(a[1..], b[1..]))
  }

  lemma {:induction false} TextLessIsStrict(a: string, b: string)
    requires TextLess(a, b)
    ensures a != b && !TextLess(b, a)
  {
    if a != "" && a[0] == b[0] { TextLessIsStrict(a[1..], b[1..]); }
  }

  /** A key that may be enrolled: its signer has a valid name and its text stands for 32 bytes. */
  function KeyOf(entry: PolicyKey): Option<Bytes> {
    if ValidSigner(entry.signer) then DecodeUrlsafe(entry.publicKey, KEY_BYTES) else None
  }

  /** Two witnesses in signer order whose keys have different digests. */
  ghost predicate Independent(sha256: Bytes -> string, a: PolicyKey, b: PolicyKey) {
    && KeyOf(a).Some? && KeyOf(b).Some? && TextLess(a.signer, b.signer)
    && sha256(KeyOf(a).value) != sha256(KeyOf(b).value)
  }

  ghost predicate PolicyHolds(sha256: Bytes -> string, expected: string, file: PolicyFile) {
    && file.digest == expected && file.canonical
    && file.schema == POLICY_SCHEMA && file.product == "Angerona"
    && 1 <= file.version <= 0x7FFF_FFFF && file.threshold == 2
    && |file.keys| == 2 && Independent(sha256, file.keys[0], file.keys[1])
  }

  datatype Policy = Policy(signers: seq<string>, keys: map<string, Bytes>)

  /** The policy that a file enrolls: its two signers in their order, each with its key. */
  function PolicyOf(file: PolicyFile): Policy
    requires |file.keys| == 2 && KeyOf(file.keys[0]).Some? && KeyOf(file.keys[1]).Some?
  {
    var a, b := file.keys[0], file.keys[1];
    Policy([a.signer, b.signer], map[a.signer := KeyOf(a).value, b.signer := KeyOf(b).value])
  }

  /** The entries that the loop has enrolled after `i` of the two. */
  ghost predicate EnrolledSoFar(sha256: Bytes -> string, entries: seq<PolicyKey>, i: nat, policy: Policy, digests: set<string>, previous: string)
    requires |entries| == 2 && i <= 2
  {
    var a, b := entries[0], entries[1];
    match i
    case 0 => policy == Policy([], map[]) && digests == {} && previous == ""
    case 1 =>
      && KeyOf(a).Some? && policy == Policy([a.signer], map[a.signer := KeyOf(a).value])
      && digests == {sha256(KeyOf(a).value)} && previous == a.signer
    case _ =>
      && Independent(sha256, a, b)
      && policy == Policy([a.signer, b.signer], map[a.signer := KeyOf(a).value, b.signer := KeyOf(b).value])
  }

  /** A policy is loaded exactly when it is the protected one and enrolls two independent witnesses. */
  method LoadRootPolicy(sha256: Bytes -> string, expected: string, file: PolicyFile) returns (policy: Option<Policy>)
    ensures policy.Some? <==> PolicyHolds(sha256, expected, file)
    ensures policy.Some? ==> policy.value == PolicyOf(file)
  {
    if file.digest != expected || !file.canonical { return None; }
    if file.schema != POLICY_SCHEMA || file.product != "Angerona" { return None; }
    if !(1 <= file.version <= 0x7FFF_FFFF) || file.threshold != 2 || |file.keys| != 2 { return None; }
    var enrolled := Policy([], map[]);
    var digests: set<string> := {};
    var previous := "";
    for i := 0 to |file.keys|
      invariant EnrolledSoFar(sha256, file.keys, i, enrolled, digests, previous)
    {
      var entry := file.keys[i];
      if !ValidSigner(entry.signer) { return None; }
      if previous != "" && !TextLess(previous, entry.signer) { return None; }
      var public := DecodeUrlsafe(entry.publicKey, KEY_BYTES);
      if public.None? { return None; }
      if i == 1 { TextLessIsStrict(previous, entry.signer); }
      if entry.signer in enrolled.keys || sha256(public.value) in digests { return None; }
      enrolled := Policy(enrolled.signers + [entry.signer], enrolled.keys[entry.signer := public.value]);
      digests := digests + {sha256(public.value)};
      previous := entry.signer;
    }
    policy := Some(enrolled);
  }

  /** The witnesses of a loaded policy are two different signers with two different keys. */
  lemma WitnessesDiffer(sha256: Bytes -> string, expected: string, file: PolicyFile)
    requires PolicyHolds(sha256, expected, file)
    ensures var a, b := file.keys[0], file.keys[1];
            a.signer != b.signer && KeyOf(a) != KeyOf(b) && |KeyOf(a).value| == |KeyOf(b).value| == KEY_BYTES
  {
    TextLessIsStrict(file.keys[0].signer, file.keys[1].signer);
  }

  // ---------------------------------------------------------------- finalisation

  /** One response: an enrolled signer's signature, of the right length, over exactly this statement. */
  ghost predicate Approves(verify: Verifier, keys: map<string, Bytes>, statement: Statement, r: Response) {
    && r.schema == SIGNATURE_SCHEMA && r.statementSha256 == statement.sha256
    && r.signer in keys
    && DecodeUrlsafe(r.signature, SIGNATURE_BYTES).Some?
    && verify(keys[r.signer], DecodeUrlsafe(r.signature, SIGNATURE_BYTES).value, statement.canonical)
  }

  ghost predicate DistinctSigners(responses: seq<Response>) {
    forall i, j :: 0 <= i < j < |responses| ==> responses[i].signer != responses[j].signer
  }

  /** As many responses as witnesses, each approving, no two from one signer. */
  ghost predicate Threshold(verify: Verifier, policy: Policy, statement: Statement, responses: seq<Response>) {
    && |responses| == |policy.signers| && DistinctSigners(responses)
    && ApprovedSoFar(verify, policy, statement, responses, |responses|)
  }

  ghost predicate ApprovedSoFar(verify: Verifier, policy: Policy, statement: Statement, responses: seq<Response>, k: nat)
    requires k <= |responses|
  {
    forall i :: 0 <= i < k ==> Approves(verify, policy.keys, statement, responses[i])
  }

  /** The signers are distinct and are exactly those with a key, as in every loaded policy. */
  ghost predicate WellFormed(policy: Policy) {
    && (forall i, j :: 0 <= i < j < |policy.signers| ==> policy.signers[i] != policy.signers[j])
    && (forall s :: s in policy.signers <==> s in policy.keys)
  }

  lemma LoadedPolicyIsWellFormed(sha256: Bytes -> string, expected: string, file: PolicyFile)
    requires PolicyHolds(sha256, expected, file)
    ensures WellFormed(PolicyOf(file)) && |PolicyOf(file).signers| == 2
  {
    WitnessesDiffer(sha256, expected, file);
  }

  ghost function SetOf(texts: seq<string>): set<string> { set t | t in texts }

  lemma {:induction false} SizeOfDistinct(texts: seq<string>)
    requires forall i, j :: 0 <= i < j < |texts| ==> texts[i] != texts[j]
    ensures |SetOf(texts)| == |texts|
    decreases |texts|
  {
    if texts != [] {
      var front, last := texts[..|texts| - 1], texts[|texts| - 1];
      SizeOfDistinct(front);
      assert last !in front;
      assert SetOf(texts) == SetOf(front) + {last};
    }
  }

  lemma FullSubset(a: set<string>, b: set<string>)
    requires a <= b && |a| == |b|
    ensures a == b
  {
    assert b == a + (b - a);
  }

  /** Pigeonhole: with distinct enrolled signers and as many responses as witnesses, every witness has signed. */
  lemma EveryWitnessSigned(verify: Verifier, policy: Policy, statement: Statement, responses: seq<Response>)
    requires WellFormed(policy) && Threshold(verify, policy, statement, responses)
    ensures forall s :: s in policy.signers ==> exists i :: 0 <= i < |responses| && responses[i].signer == s
  {
    var names := seq(|responses|, i requires 0 <= i < |responses| => responses[i].signer);
    SizeOfDistinct(names);
    SizeOfDistinct(policy.signers);
    forall s | s in names ensures s in policy.signers {
      var i :| 0 <= i < |names| && names[i] == s;
      assert Approves(verify, policy.keys, statement, responses[i]);
    }
    FullSubset(SetOf(names), SetOf(policy.signers));
    forall s | s in policy.signers ensures exists i :: 0 <= i < |responses| && responses[i].signer == s {
      assert s in SetOf(names);
      var i :| 0 <= i < |names| && names[i] == s;
      assert responses[i].signer == s;
    }
  }

  /** What is written: one signature text a witness, in the policy's order, and the witnesses' keys. */
  datatype Authorization = Authorization(signatures: seq<(string, string)>, trust: map<string, string>)

  /** Some response carries this signer and this signature text. */
  ghost predicate Given(responses: seq<Response>, row: (string, string)) {
    exists i :: 0 <= i < |responses| && (responses[i].signer, responses[i].signature) == row
  }

  ghost predicate Combines(policy: Policy, responses: seq<Response>, out: Authorization) {
    && |out.signatures| == |policy.signers|
    && (forall k :: 0 <= k < |policy.signers| ==>
          && out.signatures[k].0 == policy.signers[k]
          && Given(responses, out.signatures[k]))
    && out.trust == map s | s in policy.keys :: PublicText(policy.keys[s])
  }

  method CheckResponse(verify: Verifier, policy: Policy, statement: Statement, r: Response) returns (ok: bool)
    requires WellFormed(policy)
    ensures ok <==> Approves(verify, policy.keys, statement, r)
  {
    if r.schema != SIGNATURE_SCHEMA || r.signer !in policy.signers { return false; }
    if r.statementSha256 != statement.sha256 { return false; }
    var signature := DecodeUrlsafe(r.signature, SIGNATURE_BYTES);
    ok := signature.Some? && verify(policy.keys[r.signer], signature.value, statement.canonical);
  }

  /** The responses collected so far, by signer. */
  ghost predicate Collected(responses: seq<Response>, k: nat, bySigner: map<string, string>)
    requires k <= |responses|
  {
    && (forall i, j :: 0 <= i < j < k ==> responses[i].signer != responses[j].signer)
    && (forall i :: 0 <= i < k ==>
          responses[i].signer in bySigner && bySigner[responses[i].signer] == responses[i].signature)
    && (forall s :: s in bySigner ==> exists i :: 0 <= i < k && responses[i].signer == s)
  }

  lemma CollectOne(responses: seq<Response>, k: nat, bySigner: map<string, string>)
    requires k < |responses| && Collected(responses, k, bySigner)
    ensures responses[k].signer !in bySigner ==>
              Collected(responses, k + 1, bySigner[responses[k].signer := responses[k].signature])
    ensures responses[k].signer in bySigner ==> !DistinctSigners(responses)
  {
    var r, after := responses[k], bySigner[responses[k].signer := responses[k].signature];
    if r.signer !in bySigner {
      forall s | s in after ensures exists i :: 0 <= i < k + 1 && responses[i].signer == s {
        if s != r.signer {
          var i :| 0 <= i < k && responses[i].signer == s;
        }
      }
    }
  }

  method CollectResponses(verify: Verifier, policy: Policy, statement: Statement, responses: seq<Response>)
    returns (bySigner: Option<map<string, string>>)
    requires WellFormed(policy) && |responses| == |policy.signers|
    ensures bySigner.Some? <==> DistinctSigners(responses) && ApprovedSoFar(verify, policy, statement, responses, |responses|)
    ensures bySigner.Some? ==> Collected(responses, |responses|, bySigner.value)
  {
    var collected: map<string, string> := map[];
    for k := 0 to |responses|
      invariant Collected(responses, k, collected) && ApprovedSoFar(verify, policy, statement, responses, k)
    {
      var r := responses[k];
      CollectOne(responses, k, collected);
      if r.signer in collected { return None; }
      var ok := CheckResponse(verify, policy, statement, r);
      if !ok { return None; }
      collected := collected[r.signer := r.signature];
    }
    bySigner := Some(collected);
  }

  /** Finalisation succeeds exactly at the threshold; the set of responses is then never incomplete. */
  method Finalize(verify: Verifier, policy: Policy, statement: Statement, responses: seq<Response>)
    returns (out: Option<Authorization>)
    requires WellFormed(policy)
    ensures out.Some? <==> Threshold(verify, policy, statement, responses)
    ensures out.Some? ==> Combines(policy, responses, out.value)
  {
    if |responses| != |policy.signers| { return None; }
    var collected := CollectResponses(verify, policy, statement, responses);
    if collected.None? { return None; }
    EveryWitnessSigned(verify, policy, statement, responses);
    var signatures := SignatureList(policy, responses, collected.value);
    out := Some(Authorization(signatures, map s | s in policy.keys :: PublicText(policy.keys[s])));
  }

  /** The signature rows in the policy's order. */
  method SignatureList(policy: Policy, ghost responses: seq<Response>, bySigner: map<string, string>)
    returns (signatures: seq<(string, string)>)
    requires Collected(responses, |responses|, bySigner)
    requires forall s :: s in policy.signers ==> exists i :: 0 <= i < |responses| && responses[i].signer == s
    ensures |signatures| == |policy.signers|
    ensures forall k :: 0 <= k < |policy.signers| ==>
              && signatures[k].0 == policy.signers[k]
              && Given(responses, signatures[k])
  {
    signatures := [];
    for k := 0 to |policy.signers|
      invariant |signatures| == k
      invariant forall j :: 0 <= j < k ==>
                  && signatures[j].0 == policy.signers[j]
                  && Given(responses, signatures[j])
    {
      assert policy.signers[k] in policy.signers;
      ghost var i :| 0 <= i < |responses| && responses[i].signer == policy.signers[k];
      signatures := signatures + [(policy.signers[k], bySigner[policy.signers[k]])];
      assert (responses[i].signer, responses[i].signature) == signatures[k];
    }
  }

  /** Neither success nor the outputs depend on the order of the responses. */
  lemma ResponseOrderIsIrrelevant(verify: Verifier, policy: Policy, statement: Statement,
                                  a: seq<Response>, b: seq<Response>, x: Authorization, y: Authorization)
    requires WellFormed(policy) && multiset(a) == multiset(b)
    requires Threshold(verify, policy, statement, a) && Combines(policy, a, x)
    requires Threshold(verify, policy, statement, b) && Combines(policy, b, y)
    ensures x == y
  {
    forall k | 0 <= k < |policy.signers| ensures x.signatures[k] == y.signatures[k] {
      assert Given(a, x.signatures[k]) && Given(b, y.signatures[k]);
      var i :| 0 <= i < |a| && (a[i].signer, a[i].signature) == x.signatures[k];
      var j :| 0 <= j < |b| && (b[j].signer, b[j].signature) == y.signatures[k];
      assert b[j] in multiset(b) && b[j] in a;
      var l :| 0 <= l < |a| && a[l] == b[j];
      assert l == i;
    }
    assert x.signatures == y.signatures;
  }

  lemma ThresholdIgnoresOrder(verify: Verifier, policy: Policy, statement: Statement, a: Response, b: Response)
    ensures Threshold(verify, policy, statement, [a, b]) == Threshold(verify, policy, statement, [b, a])
  {
    if Threshold(verify, policy, statement, [a, b]) {
      assert Approves(verify, policy.keys, statement, [a, b][0]) && Approves(verify, policy.keys, statement, [a, b][1]);
      assert [a, b][0].signer != [a, b][1].signer;
    }
    if Threshold(verify, policy, statement, [b, a]) {
      assert Approves(verify, policy.keys, statement, [b, a][0]) && Approves(verify, policy.keys, statement, [b, a][1]);
      assert [b, a][0].signer != [b, a][1].signer;
    }
  }

  // ---------------------------------------------------------------- the whole finalisation

  /** The policy file is the protected one, and every witness it enrolls has signed this statement. */
  ghost predicate Authorized(sha256: Bytes -> string, verify: Verifier, expected: string, file: PolicyFile,
                             statement: Statement, responses: seq<Response>) {
    PolicyHolds(sha256, expected, file) && Threshold(verify, PolicyOf(file), statement, responses)
  }

  /** `finalize_release_authorization`: the policy is loaded, then the responses are combined under it. */
  method FinalizeReleaseAuthorization(sha256: Bytes -> string, verify: Verifier, expected: string, file: PolicyFile,
                                      statement: Statement, responses: seq<Response>) returns (out: Option<Authorization>)
    ensures out.Some? <==> Authorized(sha256, verify, expected, file, statement, responses)
    ensures out.Some? ==> Combines(PolicyOf(file), responses, out.value)
  {
    var policy := LoadRootPolicy(sha256, expected, file);
    if policy.None? { return None; }
    LoadedPolicyIsWellFormed(sha256, expected, file);
    out := Finalize(verify, policy.value, statement, responses);
  }

  /** The response is this witness's, and its signature verifies over the statement under its own key. */
  ghost predicate SignedBy(verify: Verifier, statement: Statement, enrolled: PolicyKey, r: Response) {
    && r.signer == enrolled.signer && KeyOf(enrolled).Some?
    && DecodeUrlsafe(r.signature, SIGNATURE_BYTES).Some?
    && verify(KeyOf(enrolled).value, DecodeUrlsafe(r.signature, SIGNATURE_BYTES).value, statement.canonical)
  }

  /**
   What an authorisation means: two witnesses with different names and different 32-byte keys, and two
   responses, one of each, both over this statement.
   */
  lemma AuthorizedByTwoKeys(sha256: Bytes -> string, verify: Verifier, expected: string, file: PolicyFile,
                            statement: Statement, responses: seq<Response>) returns (i: nat, j: nat)
    requires Authorized(sha256, verify, expected, file, statement, responses)
    ensures |responses| == 2 && i < 2 && j == 1 - i
    ensures SignedBy(verify, statement, file.keys[0], responses[i]) && SignedBy(verify, statement, file.keys[1], responses[j])
    ensures responses[i].statementSha256 == responses[j].statementSha256 == statement.sha256
    ensures file.keys[0].signer != file.keys[1].signer && KeyOf(file.keys[0]).value != KeyOf(file.keys[1]).value
    ensures |KeyOf(file.keys[0]).value| == |KeyOf(file.keys[1]).value| == KEY_BYTES
  {
    var policy := PolicyOf(file);
    LoadedPolicyIsWellFormed(sha256, expected, file);
    WitnessesDiffer(sha256, expected, file);
    EveryWitnessSigned(verify, policy, statement, responses);
    assert policy.signers[0] in policy.signers && policy.signers[1] in policy.signers;
    i :| i < |responses| && responses[i].signer == policy.signers[0];
    j :| j < |responses| && responses[j].signer == policy.signers[1];
    assert Approves(verify, policy.keys, statement, responses[i]) && Approves(verify, policy.keys, statement, responses[j]);
  }

  /** The response is in the right form and names this statement. */
  predicate Answers(statement: Statement, r: Response) {
    r.schema == SIGNATURE_SCHEMA && r.statementSha256 == statement.sha256
  }

  /** Conversely, two such responses to a protected policy always authorise, in either order. */
  lemma TwoKeysAuthorize(sha256: Bytes -> string, verify: Verifier, expected: string, file: PolicyFile,
                         statement: Statement, a: Response, b: Response)
    requires PolicyHolds(sha256, expected, file)
    ensures Answers(statement, a) && SignedBy(verify, statement, file.keys[0], a)
            && Answers(statement, b) && SignedBy(verify, statement, file.keys[1], b) ==>
              && Authorized(sha256, verify, expected, file, statement, [a, b])
              && Authorized(sha256, verify, expected, file, statement, [b, a])
  {
    WitnessesDiffer(sha256, expected, file);
    ThresholdIgnoresOrder(verify, PolicyOf(file), statement, a, b);
  }

  // ---------------------------------------------------------------- the same, field by field

  predicate Alphanumeric(c: char) { 'A' <= c <= 'Z' || 'a' <= c <= 'z' || '0' <= c <= '9' }

  lemma SignerExactly(s: string)
    ensures ValidSigner(s) <==>
            && 3 <= |s| <= 192 && Alphanumeric(s[0])
            && forall i :: 1 <= i < |s| ==>
                 Alphanumeric(s[i]) || s[i] == '.' || s[i] == '_' || s[i] == ':' || s[i] == '@' || s[i] == '/' || s[i] == '-'
  {
  }

  /** Up to `i` they are equal, and there `a` ends or is less. */
  ghost predicate PrecedesAt(a: string, b: string, i: int) {
    0 <= i <= |a| && i < |b| && (forall j :: 0 <= j < i ==> a[j] == b[j]) && (i == |a| || a[i] < b[i])
  }

  ghost predicate Precedes(a: string, b: string) { exists i :: PrecedesAt(a, b, i) }

  lemma {:induction false} TextLessExactly(a: string, b: string)
    ensures TextLess(a, b) <==> Precedes(a, b)
  {
    if a != "" && b != "" && a[0] == b[0] {
      TextLessExactly(a[1..], b[1..]);
      if i :| PrecedesAt(a[1..], b[1..], i) {
        forall j | 0 <= j < i + 1 ensures a[j] == b[j] {
          if j > 0 { assert a[1..][j - 1] == b[1..][j - 1]; }
        }
        assert PrecedesAt(a, b, i + 1);
      }
      if i :| PrecedesAt(a, b, i) {
        assert i > 0;
        assert PrecedesAt(a[1..], b[1..], i - 1);
      }
    } else if TextLess(a, b) {
      assert PrecedesAt(a, b, 0);
    }
  }

  /** The protected policy, with everything that it must say. */
  lemma PolicyExactly(sha256: Bytes -> string, expected: string, file: PolicyFile)
    ensures PolicyHolds(sha256, expected, file) <==>
            && file.digest == expected && file.canonical
            && file.schema == "angerona.release-root-policy/v1" && file.product == "Angerona"
            && 1 <= file.version <= 2147483647 && file.threshold == 2 && |file.keys| == 2
            && var a, b := file.keys[0], file.keys[1];
               && ValidSigner(a.signer) && ValidSigner(b.signer) && Precedes(a.signer, b.signer)
               && DecodeUrlsafe(a.publicKey, 32).Some? && DecodeUrlsafe(b.publicKey, 32).Some?
               && sha256(DecodeUrlsafe(a.publicKey, 32).value) != sha256(DecodeUrlsafe(b.publicKey, 32).value)
  {
    if |file.keys| == 2 { TextLessExactly(file.keys[0].signer, file.keys[1].signer); }
  }

  /** A response of this witness to this statement, with a signature of 64 bytes that verifies under its key. */
  ghost predicate Signs(verify: Verifier, entry: PolicyKey, statement: Statement, r: Response) {
    && r.schema == "angerona.release-signature/v1" && r.statementSha256 == statement.sha256 && r.signer == entry.signer
    && DecodeUrlsafe(entry.publicKey, 32).Some? && DecodeUrlsafe(r.signature, 64).Some?
    && verify(DecodeUrlsafe(entry.publicKey, 32).value, DecodeUrlsafe(r.signature, 64).value, statement.canonical)
  }

  /** An authorisation needs the protected policy and one signature of each witness, in either order, and no more. */
  lemma AuthorizedExactly(sha256: Bytes -> string, verify: Verifier, expected: string, file: PolicyFile,
                          statement: Statement, responses: seq<Response>)
    ensures Authorized(sha256, verify, expected, file, statement, responses) <==>
            && PolicyHolds(sha256, expected, file) && |responses| == 2
            && var a, b := file.keys[0], file.keys[1];
               || (Signs(verify, a, statement, responses[0]) && Signs(verify, b, statement, responses[1]))
               || (Signs(verify, b, statement, responses[0]) && Signs(verify, a, statement, responses[1]))
  {
    if PolicyHolds(sha256, expected, file) && |responses| == 2 {
      WitnessesDiffer(sha256, expected, file);
      var keys := PolicyOf(file).keys;
      forall i | 0 <= i < 2
        ensures Approves(verify, keys, statement, responses[i]) <==>
                Signs(verify, file.keys[0], statement, responses[i]) || Signs(verify, file.keys[1], statement, responses[i])
      {
      }
      assert responses == [responses[0], responses[1]];
    }
  }

  /** What is written: each witness's own signature text, in the policy's order, and both keys as text. */
  lemma OutputsExactly(sha256: Bytes -> string, verify: Verifier, expected: string, file: PolicyFile,
                       statement: Statement, responses: seq<Response>, out: Authorization)
    requires Authorized(sha256, verify, expected, file, statement, responses)
    requires Combines(PolicyOf(file), responses, out)
    ensures var a, b := file.keys[0], file.keys[1];
            && |out.signatures| == 2
            && (exists r :: r in responses && r.signer == a.signer && out.signatures[0] == (a.signer, r.signature))
            && (exists r :: r in responses && r.signer == b.signer && out.signatures[1] == (b.signer, r.signature))
            && out.trust == map[a.signer := PublicText(KeyOf(a).value), b.signer := PublicText(KeyOf(b).value)]
  {
    var policy := PolicyOf(file);
    WitnessesDiffer(sha256, expected, file);
    forall k | 0 <= k < 2
      ensures exists r :: r in responses && r.signer == policy.signers[k] && out.signatures[k] == (policy.signers[k], r.signature)
    {
      assert Given(responses, out.signatures[k]);
      var i :| 0 <= i < |responses| && (responses[i].signer, responses[i].signature) == out.signatures[k];
      assert responses[i] in responses;
    }
    assert policy.signers[0] == file.keys[0].signer && policy.signers[1] == file.keys[1].signer;
  }

  // ---------------------------------------------------------------- honest signers

  /** `sign_release_statement`: signs only with the seed of the enrolled public key. */
  method SignReleaseStatement(derive: Bytes -> Bytes, sign: (Bytes, Bytes) -> Bytes, signer: string, seed: string,
                              enrolled: string, statement: Statement) returns (response: Option<Response>)
    ensures response.Some? <==>
            && ValidSigner(signer) && seed != "" && DecodeUrlsafe(seed, 32).Some?
            && DecodeUrlsafe(enrolled, KEY_BYTES) == Some(derive(DecodeUrlsafe(seed, 32).value))
    ensures response.Some? ==>
              response.value == Response(SIGNATURE_SCHEMA, signer, statement.sha256,
                                         PublicText(sign(DecodeUrlsafe(seed, 32).value, statement.canonical)))
  {
    if !ValidSigner(signer) { return None; }
    if seed == "" { return None; }
    var raw := DecodeUrlsafe(seed, 32);
    if raw.None? { return None; }
    var public := DecodeUrlsafe(enrolled, KEY_BYTES);
    if public.None? || public.value != derive(raw.value) { return None; }
    response := Some(Response(SIGNATURE_SCHEMA, signer, statement.sha256, PublicText(sign(raw.value, statement.canonical))));
  }

  /** What the two enrolled witnesses sign over one statement always reaches the threshold, in either order. */
  lemma HonestResponsesFinalize(verify: Verifier, derive: Bytes -> Bytes, sign: (Bytes, Bytes) -> Bytes,
                                policy: Policy, statement: Statement, s: Bytes, t: Bytes)
    requires WellFormed(policy) && |policy.signers| == 2
    requires policy.keys[policy.signers[0]] == derive(s) && policy.keys[policy.signers[1]] == derive(t)
    requires forall seed :: seed in {s, t} ==>
                              && |sign(seed, statement.canonical)| == SIGNATURE_BYTES
                              && verify(derive(seed), sign(seed, statement.canonical), statement.canonical)
    ensures var a := Response(SIGNATURE_SCHEMA, policy.signers[0], statement.sha256, PublicText(sign(s, statement.canonical)));
            var b := Response(SIGNATURE_SCHEMA, policy.signers[1], statement.sha256, PublicText(sign(t, statement.canonical)));
            Threshold(verify, policy, statement, [a, b]) && Threshold(verify, policy, statement, [b, a])
  {
    var a := Response(SIGNATURE_SCHEMA, policy.signers[0], statement.sha256, PublicText(sign(s, statement.canonical)));
    var b := Response(SIGNATURE_SCHEMA, policy.signers[1], statement.sha256, PublicText(sign(t, statement.canonical)));
    PublicTextIsDecoded(sign(s, statement.canonical));
    PublicTextIsDecoded(sign(t, statement.canonical));
    assert Approves(verify, policy.keys, statement, a) && Approves(verify, policy.keys, statement, b);
    ThresholdIgnoresOrder(verify, policy, statement, a, b);
  }
}
