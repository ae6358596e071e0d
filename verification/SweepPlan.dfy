/**
 Sealed gas-wallet sweep plans: `amount = balance - fee` to a checked recipient, with digests that
 tie the plan to its material.
 */
module SweepPlan {
  import opened CanonicalJson
  import opened Text
  import opened Wrappers

  /** Text of a literal; the literals here are plain ASCII. */
  function Ascii(s: string): (r: String)
    requires forall i :: 0 <= i < |s| ==> s[i] < 128 as char
    ensures |r| == |s| && forall i :: 0 <= i < |s| ==> r[i] == s[i] as int
  {
    seq(|s|, i requires 0 <= i < |s| => s[i] as CodeUnit)
  }

  datatype Material = Material(
    mainnet: bool, chainId: nat, principal: String, publicKey: String, recipient: String,
    amount: nat, fee: nat, nonce: nat, balance: nat, indexBlockHash: String, createdAt: String, expiresAt: String)

  datatype Plan = Plan(planDigest: nat, unsignedTransaction: String, unsignedDigest: nat, material: Material)

  datatype Input = Input(
    mainnet: bool, chainId: nat, principal: String, publicKey: String, recipient: String,
    balance: int, fee: int, nonce: int, indexBlockHash: String, createdAt: String, expiresAt: String)

  datatype PlanError = InvalidRecipient | RecipientIsWallet | InsufficientBalance | InvalidMaterial | PlanMismatch

  /**
   Foreign code: address checksums, date syntax, the deterministic transaction builder (None when its
   own round trip fails) and the two digests.
   */
  datatype Foreign = Foreign(
    validAddress: String -> bool, isDateTime: String -> bool,
    build: Material -> Option<String>, digestText: String -> nat, digestBytes: String -> nat)

  ghost predicate Injective(f: String -> nat) {
    forall a, b :: f(a) == f(b) ==> a == b
  }

  // ---------------------------------------------------------------------------------------------
  // Recipient and material checks
  // ---------------------------------------------------------------------------------------------

  /** The white space `trim` removes. */
  predicate IsSpace(u: CodeUnit) {
    || 0x09 <= u <= 0x0D || u == 0x20 || u == 0xA0 || u == 0x1680 || 0x2000 <= u <= 0x200A
    || u == 0x2028 || u == 0x2029 || u == 0x202F || u == 0x205F || u == 0x3000 || u == 0xFEFF
  }

  function TrimStart(s: String): String {
    if |s| > 0 && IsSpace(s[0]) then TrimStart(s[1..]) else s
  }

  function TrimEnd(s: String): String {
    if |s| > 0 && IsSpace(s[|s| - 1]) then TrimEnd(s[..|s| - 1]) else s
  }

  function Trim(s: String): String {
    TrimEnd(TrimStart(s))
  }

  predicate StartsWith(s: String, prefix: string)
    requires forall i :: 0 <= i < |prefix| ==> prefix[i] < 128 as char
  {
    Ascii(prefix) <= s
  }

  function ValidateRecipient(recipient: String, mainnet: bool, wallet: String, f: Foreign): Result<String, PlanError> {
    var value := Trim(recipient);
    if value == [] || 0x2E in value || !f.validAddress(value) then Err(InvalidRecipient)
    else if !(if mainnet then StartsWith(value, "SP") || StartsWith(value, "SM")
              else StartsWith(value, "ST") || StartsWith(value, "SN")) then Err(InvalidRecipient)
    else if value == wallet then Err(RecipientIsWallet)
    else Ok(value)
  }

  predicate IsLowerHex(s: String) {
    forall i :: 0 <= i < |s| ==> 0x30 <= s[i] < 0x3A || 0x61 <= s[i] < 0x67
  }

  function Lower(s: String): String {
    seq(|s|, i requires 0 <= i < |s| => if 0x41 <= s[i] < 0x5B then s[i] + 0x20 else s[i])
  }

  /** `gasWalletSweepPlanMaterialSchema`. */
  predicate InSchema(m: Material, f: Foreign) {
    && m.principal != [] && m.recipient != []
    && |m.publicKey| == 66 && (StartsWith(m.publicKey, "02") || StartsWith(m.publicKey, "03"))
    && IsLowerHex(m.publicKey)
    && |m.indexBlockHash| == 66 && StartsWith(m.indexBlockHash, "0x") && IsLowerHex(m.indexBlockHash[2..])
    && f.isDateTime(m.createdAt) && f.isDateTime(m.expiresAt)
  }

  function Record(keys: seq<String>, values: seq<Value>): (r: seq<CanonicalJson.Member>)
    requires |keys| == |values|
    ensures |r| == |keys| && forall i :: 0 <= i < |r| ==> r[i] == Member(keys[i], values[i])
  {
    seq(|keys|, i requires 0 <= i < |keys| => Member(keys[i], values[i]))
  }

  function NetworkKeys(): (r: seq<String>)
    ensures |r| == 2
  {
    [Ascii("kind"), Ascii("chainId")]
  }

  function SenderKeys(): (r: seq<String>)
    ensures |r| == 2
  {
    [Ascii("principal"), Ascii("publicKey")]
  }

  function MaterialKeys(): (r: seq<String>)
    ensures |r| == 11
  {
    [Ascii("schemaVersion"), Ascii("network"), Ascii("sender"), Ascii("recipient"), Ascii("amountUstx"),
     Ascii("feeUstx"), Ascii("nonce"), Ascii("balanceUstx"), Ascii("anchor"), Ascii("createdAt"), Ascii("expiresAt")]
  }

  function NetworkValues(m: Material): (r: seq<Value>)
    ensures |r| == 2
  {
    [Str(if m.mainnet then Ascii("mainnet") else Ascii("testnet")), Number(m.chainId)]
  }

  function SenderValues(m: Material): (r: seq<Value>)
    ensures |r| == 2
  {
    [Str(m.principal), Str(m.publicKey)]
  }

  function MaterialValues(m: Material): (r: seq<Value>)
    ensures |r| == 11
  {
    [Number(1), Object(Record(NetworkKeys(), NetworkValues(m))), Object(Record(SenderKeys(), SenderValues(m))),
     Str(m.recipient), Str(Decimal(m.amount)), Str(Decimal(m.fee)), Str(Decimal(m.nonce)), Str(Decimal(m.balance)),
     Object(Record([Ascii("indexBlockHash")], [Str(m.indexBlockHash)])), Str(m.createdAt), Str(m.expiresAt)]
  }

  /** The material as the JSON value that is sealed. */
  function ToJson(m: Material): Value {
    Object(Record(MaterialKeys(), MaterialValues(m)))
  }

  // ---------------------------------------------------------------------------------------------
  // Planning and revalidation
  // ---------------------------------------------------------------------------------------------

  /** `planGasWalletSweep`. */
  function MakePlan(input: Input, f: Foreign): Result<Plan, PlanError> {
    var recipient := ValidateRecipient(input.recipient, input.mainnet, input.principal, f);
    if recipient.Err? then Err(recipient.error)
    else if input.fee <= 0 then Err(InvalidMaterial)
    else if input.balance <= input.fee then Err(InsufficientBalance)
    else if input.nonce < 0 then Err(InvalidMaterial)
    else
      var m := Material(input.mainnet, input.chainId, input.principal, Lower(input.publicKey), recipient.value,
                        input.balance - input.fee, input.fee, input.nonce, input.balance,
                        input.indexBlockHash, input.createdAt, input.expiresAt);
      if !InSchema(m, f) then Err(InvalidMaterial)
      else
        var hex := f.build(m);
        if hex.None? then Err(PlanMismatch)
        else Ok(Plan(f.digestText(Canonical(ToJson(m))), hex.value, f.digestBytes(hex.value), m))
  }

  /** `revalidateGasWalletSweepPlan`. */
  function Revalidate(p: Plan, f: Foreign): Result<Plan, PlanError> {
    var m := p.material;
    if !InSchema(m, f) then Err(InvalidMaterial)
    else
      var recipient := ValidateRecipient(m.recipient, m.mainnet, m.principal, f);
      if recipient.Err? then Err(recipient.error)
      else if m.balance != m.amount + m.fee then Err(PlanMismatch)
      else
        var hex := f.build(m);
        if hex.None? || hex.value != p.unsignedTransaction || f.digestBytes(hex.value) != p.unsignedDigest
           || f.digestText(Canonical(ToJson(m))) != p.planDigest then Err(PlanMismatch)
        else Ok(p)
  }

  lemma {:induction false} TrimStartIsTrimmed(s: String)
    ensures |TrimStart(s)| > 0 ==> !IsSpace(TrimStart(s)[0])
  {
    if |s| > 0 && IsSpace(s[0]) {
      TrimStartIsTrimmed(s[1..]);
    }
  }

  lemma {:induction false} TrimEndIsTrimmed(s: String)
    ensures |TrimEnd(s)| > 0 ==> !IsSpace(TrimEnd(s)[|TrimEnd(s)| - 1])
    ensures TrimEnd(s) <= s
  {
    if |s| > 0 && IsSpace(s[|s| - 1]) {
      TrimEndIsTrimmed(s[..|s| - 1]);
    }
  }

  /** Trimming what was trimmed changes nothing. */
  lemma TrimIsIdempotent(s: String)
    ensures Trim(Trim(s)) == Trim(s)
  {
    TrimStartIsTrimmed(s);
    TrimEndIsTrimmed(TrimStart(s));
  }

  /** A plan that is built moves the whole balance, pays a positive fee, and is accepted unchanged. */
  lemma BuiltPlansRevalidate(input: Input, f: Foreign)
    requires MakePlan(input, f).Ok?
    ensures var p := MakePlan(input, f).value;
      && p.material.amount > 0 && p.material.fee > 0
      && p.material.amount + p.material.fee == p.material.balance == input.balance
      && p.material.recipient == Trim(input.recipient) && p.material.recipient != p.material.principal
      && Revalidate(p, f) == Ok(p)
  {
    TrimIsIdempotent(input.recipient);
  }

  // ---------------------------------------------------------------------------------------------
  // Tampering
  // ---------------------------------------------------------------------------------------------

  ghost predicate Distinct(keys: seq<String>) {
    forall i, j :: 0 <= i < j < |keys| ==> keys[i] != keys[j]
  }

  lemma KeysDiffer()
    ensures Distinct(MaterialKeys()) && Distinct(NetworkKeys()) && Distinct(SenderKeys())
  {
    var keys := MaterialKeys();
    assert forall i, j :: 0 <= i < j < 11 && |keys[i]| == |keys[j]| ==> keys[i][0] != keys[j][0];
    assert SenderKeys()[0][1] != SenderKeys()[1][1];
    assert |NetworkKeys()[0]| != |NetworkKeys()[1]|;
  }

  lemma RecordIsWellFormed(keys: seq<String>, values: seq<Value>)
    requires |keys| == |values| && Distinct(keys) && forall i :: 0 <= i < |values| ==> WellFormed(values[i])
    ensures WellFormed(Object(Record(keys, values)))
  {
  }

  lemma MaterialIsWellFormed(m: Material)
    ensures WellFormed(ToJson(m))
  {
    KeysDiffer();
    RecordIsWellFormed(NetworkKeys(), NetworkValues(m));
    RecordIsWellFormed(SenderKeys(), SenderValues(m));
    RecordIsWellFormed([Ascii("indexBlockHash")], [Str(m.indexBlockHash)]);
    RecordIsWellFormed(MaterialKeys(), MaterialValues(m));
  }

  /** The member of an equivalent object that matches one of the other. */
  lemma MemberMatches(x: seq<Member>, y: seq<Member>, i: nat) returns (j: nat)
    requires Equivalent(Object(x), Object(y)) && i < |x|
    ensures j < |y| && x[i].key == y[j].key && Equivalent(x[i].value, y[j].value)
  {
    j :| 0 <= j < |y| && x[i].key == y[j].key && Equivalent(x[i].value, y[j].value);
  }

  /** Records with the same keys are compared place by place. */
  lemma RecordsCompare(keys: seq<String>, a: seq<Value>, b: seq<Value>)
    requires |keys| == |a| == |b| && Distinct(keys)
    requires Equivalent(Object(Record(keys, a)), Object(Record(keys, b)))
    ensures forall i :: 0 <= i < |keys| ==> Equivalent(a[i], b[i])
  {
    hide Equivalent;
    var x, y := Record(keys, a), Record(keys, b);
    forall i | 0 <= i < |keys| ensures Equivalent(a[i], b[i]) {
      var j := MemberMatches(x, y, i);
      assert keys[i] == keys[j];
      assert i == j;
    }
  }

  lemma LeavesCompare()
    ensures forall x, y :: Equivalent(Str(x), Str(y)) ==> x == y
    ensures forall x, y :: Equivalent(Number(x), Number(y)) ==> x == y
  {
  }

  lemma NetworkDecides(m: Material, n: Material)
    requires Equivalent(Object(Record(NetworkKeys(), NetworkValues(m))),
                        Object(Record(NetworkKeys(), NetworkValues(n))))
    ensures m.mainnet == n.mainnet && m.chainId == n.chainId
  {
    KeysDiffer();
    LeavesCompare();
    hide Equivalent, Distinct, NetworkKeys, Record;
    RecordsCompare(NetworkKeys(), NetworkValues(m), NetworkValues(n));
    assert Equivalent(NetworkValues(m)[0], NetworkValues(n)[0]) && Equivalent(NetworkValues(m)[1], NetworkValues(n)[1]);
    assert Ascii("mainnet")[0] != Ascii("testnet")[0];
  }

  lemma SenderDecides(m: Material, n: Material)
    requires Equivalent(Object(Record(SenderKeys(), SenderValues(m))), Object(Record(SenderKeys(), SenderValues(n))))
    ensures m.principal == n.principal && m.publicKey == n.publicKey
  {
    KeysDiffer();
    LeavesCompare();
    hide Equivalent, Distinct, SenderKeys, Record;
    RecordsCompare(SenderKeys(), SenderValues(m), SenderValues(n));
    assert Equivalent(SenderValues(m)[0], SenderValues(n)[0]) && Equivalent(SenderValues(m)[1], SenderValues(n)[1]);
  }

  lemma AnchorDecides(key: String, x: String, y: String)
    requires Equivalent(Object(Record([key], [Str(x)])), Object(Record([key], [Str(y)])))
    ensures x == y
  {
    RecordsCompare([key], [Str(x)], [Str(y)]);
    assert Equivalent([Str(x)][0], [Str(y)][0]);
  }

  /** Equal sealed values come from equal material. */
  lemma SealedValueDecides(m: Material, n: Material)
    requires Equivalent(ToJson(m), ToJson(n))
    ensures m == n
  {
    var a, b := MaterialValues(m), MaterialValues(n);
    KeysDiffer();
    LeavesCompare();
    hide Equivalent, Decimal, Distinct, MaterialKeys, NetworkKeys, SenderKeys, Ascii, Record;
    RecordsCompare(MaterialKeys(), a, b);
    assert Equivalent(a[1], b[1]) && Equivalent(a[2], b[2]) && Equivalent(a[8], b[8]);
    NetworkDecides(m, n);
    SenderDecides(m, n);
    AnchorDecides(Ascii("indexBlockHash"), m.indexBlockHash, n.indexBlockHash);
    assert Equivalent(a[3], b[3]) && Equivalent(a[9], b[9]) && Equivalent(a[10], b[10]);
    assert Equivalent(a[4], b[4]) && Equivalent(a[5], b[5]) && Equivalent(a[6], b[6]) && Equivalent(a[7], b[7]);
    DecimalUnique(m.amount, n.amount);
    DecimalUnique(m.fee, n.fee);
    DecimalUnique(m.nonce, n.nonce);
    DecimalUnique(m.balance, n.balance);
  }

  /** Two accepted plans with one digest are the same plan, down to the transaction they carry. */
  lemma DigestSealsThePlan(p: Plan, q: Plan, f: Foreign)
    requires Injective(f.digestText)
    requires Revalidate(p, f).Ok? && Revalidate(q, f).Ok? && p.planDigest == q.planDigest
    ensures p == q
  {
    hide Canonical;
    MaterialIsWellFormed(p.material);
    MaterialIsWellFormed(q.material);
    CanonicalTextDecides(ToJson(p.material), ToJson(q.material));
    SealedValueDecides(p.material, q.material);
  }

  /** Changing anything in an accepted plan's material, and nothing else, has it rejected. */
  lemma ChangedMaterialIsRejected(p: Plan, changed: Material, f: Foreign)
    requires Injective(f.digestText) && Revalidate(p, f).Ok? && changed != p.material
    ensures Revalidate(p.(material := changed), f).Err?
  {
    if Revalidate(p.(material := changed), f).Ok? {
      DigestSealsThePlan(p, p.(material := changed), f);
    }
  }
}
