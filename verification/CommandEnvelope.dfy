/** Signing and checking platform commands: treeminer/server/command_signing.py.  The message
    authentication code is a parameter. */
module CommandEnvelope {
  import opened CanonicalJson
  import opened Identifiers
  import opened Options

  // ----- The signed string

  datatype Envelope = Envelope(worker: string, command: string, issued: int, expires: int, nonce: string)

  function Lines(parts: seq<string>): string
    requires parts != []
  {
    if |parts| == 1 then parts[0] else parts[0] + "\n" + Lines(parts[1..])
  }

  function Parts(e: Envelope, body: string): seq<string> {
    ["TMv1", e.worker, e.command, Decimal(e.issued), Decimal(e.expires), e.nonce, body]
  }

  /** `signing_string`. */
  function SigningString(e: Envelope, body: string): string {
    Lines(Parts(e, body))
  }

  /** Seven lines: the version, the worker, the command, the two times in decimal, the nonce and the body. */
  lemma {:induction false} SigningText(e: Envelope, body: string)
    ensures SigningString(e, body)
         == "TMv1" + "\n" + (e.worker + "\n" + (e.command + "\n" + (Decimal(e.issued) + "\n"
            + (Decimal(e.expires) + "\n" + (e.nonce + "\n" + body)))))
  {
    hide Decimal;
    var p := Parts(e, body);
    assert Lines(p[6..]) == body;
    assert Lines(p[5..]) == e.nonce + "\n" + body by { assert p[5..][1..] == p[6..]; }
    assert Lines(p[4..]) == Decimal(e.expires) + "\n" + Lines(p[5..]) by { assert p[4..][1..] == p[5..]; }
    assert Lines(p[3..]) == Decimal(e.issued) + "\n" + Lines(p[4..]) by { assert p[3..][1..] == p[4..]; }
    assert Lines(p[2..]) == e.command + "\n" + Lines(p[3..]) by { assert p[2..][1..] == p[3..]; }
    assert Lines(p[1..]) == e.worker + "\n" + Lines(p[2..]) by { assert p[1..][1..] == p[2..]; }
  }

  function Breaks(s: string): nat {
    if s == "" then 0 else (if s[0] == '\n' then 1 else 0) + Breaks(s[1..])
  }

  function BreaksIn(parts: seq<string>): nat {
    if parts == [] then 0 else Breaks(parts[0]) + BreaksIn(parts[1..])
  }

  lemma {:induction false} BreaksConcat(a: string, b: string)
    ensures Breaks(a + b) == Breaks(a) + Breaks(b)
  {
    if a == "" {
      assert a + b == b;
    } else {
      BreaksConcat(a[1..], b);
      assert (a + b)[1..] == a[1..] + b;
    }
  }

  lemma {:induction false} BreaksOfLines(parts: seq<string>)
    requires parts != []
    ensures Breaks(Lines(parts)) == |parts| - 1 + BreaksIn(parts)
  {
    if |parts| > 1 {
      var rest := Lines(parts[1..]);
      BreaksOfLines(parts[1..]);
      BreaksConcat(parts[0] + "\n", rest);
      BreaksConcat(parts[0], "\n");
      assert Breaks("\n") == 1 + Breaks("");
    } else {
      assert parts[1..] == [];
    }
  }

  lemma {:induction false} OneLineBreaks(s: string)
    ensures OneLine(s) <==> Breaks(s) == 0
  {
    if s != "" {
      OneLineBreaks(s[1..]);
      assert '\n' in s <==> s[0] == '\n' || '\n' in s[1..];
    }
  }

  lemma {:induction false} OneLineParts(parts: seq<string>)
    ensures BreaksIn(parts) == 0 <==> forall i :: 0 <= i < |parts| ==> OneLine(parts[i])
  {
    if parts != [] {
      OneLineBreaks(parts[0]);
      OneLineParts(parts[1..]);
      assert forall i :: 1 <= i < |parts| ==> parts[i] == parts[1..][i - 1];
    }
  }

  /** Lines without line breaks inside can be read back. */
  lemma {:induction false} LinesInjective(a: seq<string>, b: seq<string>)
    requires |a| == |b| > 0 && Lines(a) == Lines(b) && BreaksIn(a) == 0 && BreaksIn(b) == 0
    ensures a == b
  {
    if |a| > 1 {
      var x, y := Lines(a[1..]), Lines(b[1..]);
      FirstLine(a[0], x, b[0], y);
      LinesInjective(a[1..], b[1..]);
    }
    assert a == [a[0]] + a[1..] && b == [b[0]] + b[1..];
  }

  lemma {:induction false} FirstLine(a: string, x: string, b: string, y: string)
    requires a + "\n" + x == b + "\n" + y && Breaks(a) == 0 && Breaks(b) == 0
    ensures a == b && x == y
  {
    OneLineBreaks(a);
    OneLineBreaks(b);
    var s := a + "\n" + x;
    assert s[|a|] == '\n' && s[|b|] == '\n';
    assert forall i :: 0 <= i < |a| ==> s[i] == a[i];
    assert forall i :: 0 <= i < |b| ==> s[i] == b[i];
    assert |a| <= |b| && |b| <= |a|;
    assert a == s[..|a|] == b;
    assert x == s[|a| + 1..] == y;
  }

  /** The framing is unambiguous as soon as one of the two sides has no line break in its fields: the
      other side, whoever wrote it, then cannot have one either. */
  lemma {:induction false} FramingUnambiguous(a: Envelope, bodyA: string, b: Envelope, bodyB: string)
    requires OneLine(a.worker) && OneLine(a.command) && OneLine(a.nonce) && OneLine(bodyA)
    requires SigningString(a, bodyA) == SigningString(b, bodyB)
    ensures a == b && bodyA == bodyB
  {
    hide Lines; hide BreaksIn; hide Decimal;
    var p, q := Parts(a, bodyA), Parts(b, bodyB);
    BreaksOfLines(p);
    BreaksOfLines(q);
    DecimalOneLine(a.issued);
    DecimalOneLine(a.expires);
    OneLineParts(p);
    LinesInjective(p, q);
    assert p[1] == q[1] && p[2] == q[2] && p[3] == q[3] && p[4] == q[4] && p[5] == q[5] && p[6] == q[6];
    DecimalInjective(a.issued, b.issued);
    DecimalInjective(a.expires, b.expires);
  }

  lemma {:induction false} DecimalOneLine(n: int)
    ensures OneLine(Decimal(n))
  {
    hide Digits;
  }

  // ----- The canonical body

  /** What is taken from the interpreter.  `prints` says whether checking and printing a document stay
      within its limits on recursion and on the digits of an integer.  `mac` is HMAC-SHA256 in lower-case
      hexadecimal, or nothing when the text cannot be built or encoded in UTF-8, as with a lone surrogate. */
  datatype Runtime = Runtime(prints: Json -> bool, mac: (string, string) -> Option<string>)

  datatype Error = SecretMissing | NotSignable | NotPrintable | NotEncodable
  datatype Result<+T> = Ok(value: T) | Err(error: Error)

  function Without(fields: seq<Field>, key: string): seq<Field> {
    if fields == [] then []
    else (if fields[0].key == key then [] else [fields[0]]) + Without(fields[1..], key)
  }

  function Lookup(fields: seq<Field>, key: string): Option<Json> {
    if fields == [] then None else if fields[0].key == key then Some(fields[0].value) else Lookup(fields[1..], key)
  }

  /** The command itself: the message without its `auth`. */
  function Body(message: seq<Field>): Json {
    Obj(Without(message, "auth"))
  }

  /** `canonical_body`. */
  function CanonicalBody(rt: Runtime, message: seq<Field>): Result<string> {
    if !rt.prints(Body(message)) then Err(NotPrintable)
    else if Signable(Body(message)) then Ok(Print(Body(message)))
    else Err(NotSignable)
  }

  lemma {:induction false} WithoutHead(f: Field, rest: seq<Field>, key: string)
    ensures Without([f] + rest, key) == if f.key == key then Without(rest, key) else [f] + Without(rest, key)
  {
    assert ([f] + rest)[1..] == rest;
  }

  lemma {:induction false} HeadRest(fields: seq<Field>)
    requires fields != []
    ensures fields == [fields[0]] + fields[1..]
  {
  }

  lemma {:induction false} WithoutConcat(a: seq<Field>, b: seq<Field>, key: string)
    ensures Without(a + b, key) == Without(a, key) + Without(b, key)
  {
    if a == [] {
      assert a + b == b;
    } else {
      hide Without;
      var f, rest := a[0], a[1..];
      WithoutConcat(rest, b, key);
      HeadRest(a);
      WithoutHead(f, rest, key);
      WithoutHead(f, rest + b, key);
      assert a + b == [f] + (rest + b);
    }
  }

  lemma {:induction false} WithoutTwice(fields: seq<Field>, key: string)
    ensures Without(Without(fields, key), key) == Without(fields, key)
    ensures Lookup(Without(fields, key), key) == None
  {
    if fields != [] {
      var f, rest := fields[0], fields[1..];
      WithoutTwice(rest, key);
      HeadRest(fields);
      WithoutHead(f, rest, key);
      WithoutHead(f, Without(rest, key), key);
      LookupHead(f, Without(rest, key), key);
      hide Without; hide Lookup;
    }
  }

  lemma {:induction false} LookupHead(f: Field, rest: seq<Field>, key: string)
    ensures Lookup([f] + rest, key) == if f.key == key then Some(f.value) else Lookup(rest, key)
  {
    assert ([f] + rest)[1..] == rest;
  }

  lemma {:induction false} LookupLast(fields: seq<Field>, f: Field)
    requires Lookup(fields, f.key) == None
    ensures Lookup(fields + [f], f.key) == Some(f.value)
  {
    if fields != [] {
      LookupLast(fields[1..], f);
      assert (fields + [f])[1..] == fields[1..] + [f];
    }
  }

  /** The signed bytes are the same exactly when every envelope field is the same and the two commands
      mean the same; an old `auth` and the order of keys play no part. */
  lemma {:induction false} SignedBytesDetermine(a: Envelope, m: seq<Field>, b: Envelope, m': seq<Field>)
    requires SafeIdentifier(a.worker) && SafeIdentifier(a.command) && HexString(a.nonce, 16, 128)
    requires Signable(Body(m)) && Signable(Body(m'))
    ensures SigningString(a, Print(Body(m))) == SigningString(b, Print(Body(m')))
            <==> a == b && Meaning(Body(m)) == Meaning(Body(m'))
  {
    hide SigningString; hide Print; hide Meaning; hide Signable; hide Body;
    PrintIffSameMeaning(Body(m), Body(m'));
    if SigningString(a, Print(Body(m))) == SigningString(b, Print(Body(m'))) {
      assert OneLine(Print(Body(m))) by { PrintOneLine(Body(m)); }
      SafeOneLine(a.worker);
      SafeOneLine(a.command);
      HexOneLine(a.nonce);
      FramingUnambiguous(a, Print(Body(m)), b, Print(Body(m')));
    }
  }

  lemma {:induction false} PrintOneLine(j: Json)
    ensures OneLine(Print(j))
  {
    EmitOneLine(Canon(j));
  }

  lemma {:induction false} SafeOneLine(s: string)
    requires SafeIdentifier(s)
    ensures OneLine(s)
  {
  }

  lemma {:induction false} HexOneLine(s: string)
    requires HexString(s, 16, 128)
    ensures OneLine(s)
  {
  }

  // ----- Signing and verifying

  ghost predicate HexMac(rt: Runtime) {
    forall key, data :: rt.mac(key, data).Some? ==>
      HexString(rt.mac(key, data).value, 64, 64) && Lower(rt.mac(key, data).value) == rt.mac(key, data).value
  }

  function Auth(e: Envelope, sig: string): Json {
    Obj([Field("worker_id", Str(e.worker)), Field("command_id", Str(e.command)),
         Field("issued_at", Int(e.issued)), Field("expires_at", Int(e.expires)),
         Field("nonce", Str(e.nonce)), Field("sig", Str(sig))])
  }

  /** `sign_command`, and the last part of `CommandSigner.sign`. */
  function SignCommand(rt: Runtime, secret: string, message: seq<Field>, e: Envelope): Result<seq<Field>> {
    match CanonicalBody(rt, message)
    case Err(error) => Err(error)
    case Ok(body) =>
      match rt.mac(secret, SigningString(e, body))
      case None => Err(NotEncodable)
      case Some(sig) => Ok(Without(message, "auth") + [Field("auth", Auth(e, sig))])
  }

  /** The envelope and signature inside an `auth` value, when all its parts have the right type. */
  function ReadAuth(auth: Option<Json>): Option<(Envelope, string)> {
    if auth.None? || !auth.value.Obj? then None
    else
      var f := auth.value.fields;
      match (Lookup(f, "worker_id"), Lookup(f, "command_id"), Lookup(f, "nonce"), Lookup(f, "sig"),
             Lookup(f, "issued_at"), Lookup(f, "expires_at"))
      case (Some(Str(w)), Some(Str(c)), Some(Str(n)), Some(Str(sig)), Some(Int(i)), Some(Int(x))) =>
        Some((Envelope(w, c, i, x, n), sig))
      case _ => None
  }

  /** `verify_signature`. */
  function Verify(rt: Runtime, message: seq<Field>, secret: string, expectedWorker: string): Result<bool> {
    match ReadAuth(Lookup(message, "auth"))
    case None => Ok(false)
    case Some((e, sig)) =>
      if e.worker != expectedWorker || !HexString(sig, 64, 64) then Ok(false)
      else
        match CanonicalBody(rt, message)
        case Err(error) => Err(error)
        case Ok(body) =>
          match rt.mac(secret, SigningString(e, body))
          case None => Err(NotEncodable)
          case Some(expected) => Ok(Lower(sig) == expected)
  }

  lemma {:induction false} LookupAt(fields: seq<Field>, i: nat)
    requires i < |fields| && forall j :: 0 <= j < i ==> fields[j].key != fields[i].key
    ensures Lookup(fields, fields[i].key) == Some(fields[i].value)
  {
    if i > 0 {
      LookupAt(fields[1..], i - 1);
    }
  }

  lemma {:induction false} ReadAuthOfAuth(e: Envelope, sig: string)
    ensures ReadAuth(Some(Auth(e, sig))) == Some((e, sig))
  {
    hide Lookup;
    var f := Auth(e, sig).fields;
    LookupAt(f, 0);
    LookupAt(f, 1);
    LookupAt(f, 2);
    LookupAt(f, 3);
    LookupAt(f, 4);
    LookupAt(f, 5);
  }

  /** A signed message carries its envelope, and its command is the original's. */
  lemma {:induction false} SignedShape(rt: Runtime, secret: string, message: seq<Field>, e: Envelope)
    requires SignCommand(rt, secret, message, e).Ok?
    ensures var signed := SignCommand(rt, secret, message, e).value;
            var code := rt.mac(secret, SigningString(e, Print(Body(message))));
            Body(signed) == Body(message) && code.Some? && ReadAuth(Lookup(signed, "auth")) == Some((e, code.value))
  {
    hide SigningString; hide Print; hide Signable; hide Auth; hide ReadAuth;
    var sig := rt.mac(secret, SigningString(e, Print(Body(message)))).value;
    var rest, auth := Without(message, "auth"), Field("auth", Auth(e, sig));
    WithoutTwice(message, "auth");
    WithoutConcat(rest, [auth], "auth");
    assert [auth][1..] == [];
    assert Without([auth], "auth") == [];
    assert rest + [] == rest;
    LookupLast(rest, auth);
    ReadAuthOfAuth(e, sig);
  }

  /** What a signed message holds: the fields of the original without its `auth`, in their order, and then an
      `auth` with the six fields of the envelope. */
  lemma {:induction false} SignedFields(rt: Runtime, secret: string, message: seq<Field>, e: Envelope)
    requires SignCommand(rt, secret, message, e).Ok?
    ensures var signed, n := SignCommand(rt, secret, message, e).value, |Without(message, "auth")|;
            var code := rt.mac(secret, SigningString(e, Print(Body(message))));
            && |signed| == n + 1 && signed[..n] == Without(message, "auth")
            && signed[n].key == "auth" && signed[n].value.Obj? && code.Some?
            && var f := signed[n].value.fields;
            && |f| == 6
            && Lookup(f, "worker_id") == Some(Str(e.worker)) && Lookup(f, "command_id") == Some(Str(e.command))
            && Lookup(f, "issued_at") == Some(Int(e.issued)) && Lookup(f, "expires_at") == Some(Int(e.expires))
            && Lookup(f, "nonce") == Some(Str(e.nonce)) && Lookup(f, "sig") == Some(Str(code.value))
  {
    hide SigningString; hide Print; hide Signable; hide Without; hide Lookup;
    var sig := rt.mac(secret, SigningString(e, Print(Body(message)))).value;
    var f := Auth(e, sig).fields;
    LookupAt(f, 0);
    LookupAt(f, 1);
    LookupAt(f, 2);
    LookupAt(f, 3);
    LookupAt(f, 4);
    LookupAt(f, 5);
  }

  /** Every signed command verifies. */
  lemma {:induction false} SignedVerifies(rt: Runtime, secret: string, message: seq<Field>, e: Envelope)
    requires HexMac(rt) && SignCommand(rt, secret, message, e).Ok?
    ensures Verify(rt, SignCommand(rt, secret, message, e).value, secret, e.worker) == Ok(true)
  {
    hide SigningString; hide Print; hide Signable; hide HexString; hide Lower; hide ReadAuth; hide Without; hide Lookup;
    SignedShape(rt, secret, message, e);
    var sig := rt.mac(secret, SigningString(e, Print(Body(message)))).value;
    assert HexString(sig, 64, 64) && Lower(sig) == sig;
  }

  /** What verifies: a complete envelope for the expected worker with a code of 64 hexadecimal digits, which
      up to case is that of the message; anything incomplete, or for another worker, is simply false. */
  lemma {:induction false} VerifyIff(rt: Runtime, message: seq<Field>, secret: string, worker: string)
    ensures var auth, body := ReadAuth(Lookup(message, "auth")), CanonicalBody(rt, message);
            && (Verify(rt, message, secret, worker) == Ok(true) <==>
                  && auth.Some? && auth.value.0.worker == worker
                  && |auth.value.1| == 64 && (forall i :: 0 <= i < 64 ==> HexChar(auth.value.1[i]))
                  && body.Ok? && rt.mac(secret, SigningString(auth.value.0, body.value)) == Some(Lower(auth.value.1)))
            && (auth.None? || auth.value.0.worker != worker ==> Verify(rt, message, secret, worker) == Ok(false))
  {
    hide SigningString; hide ReadAuth; hide Lookup; hide HexChar; hide Lower; hide CanonicalBody;
  }

  /** A message that carries the signature of a signed command and still verifies either says the same
      thing in every signed field, or exhibits two different strings with the same code. */
  lemma {:induction false} AlterationDetected(rt: Runtime, secret: string, message: seq<Field>, e: Envelope,
                                              altered: seq<Field>, e': Envelope, sig: string)
    requires SafeIdentifier(e.worker) && SafeIdentifier(e.command) && HexString(e.nonce, 16, 128)
    requires CanonicalBody(rt, message).Ok?
    requires ReadAuth(Lookup(altered, "auth")) == Some((e', sig))
    requires rt.mac(secret, SigningString(e, Print(Body(message)))) == Some(Lower(sig))
    requires Verify(rt, altered, secret, e.worker) == Ok(true)
    ensures || (e' == e && Meaning(Body(altered)) == Meaning(Body(message)))
            || (var x, y := SigningString(e, Print(Body(message))), SigningString(e', Print(Body(altered)));
                x != y && rt.mac(secret, x).Some? && rt.mac(secret, x) == rt.mac(secret, y))
  {
    hide SigningString; hide Print; hide Meaning; hide Lower; hide ReadAuth; hide HexString; hide Signable; hide Body;
    SignedBytesDetermine(e, message, e', altered);
  }

  // ----- The signer and its nonce window

  const CAPACITY: nat := 4096
  const MAX_LIFETIME: int := 900

  /** The last `CAPACITY` elements. */
  function Window(issued: seq<string>): (w: seq<string>)
    ensures |w| <= CAPACITY
  {
    if |issued| <= CAPACITY then issued else issued[|issued| - CAPACITY..]
  }

  /** Any two nonces issued at most `CAPACITY` issuances apart differ. */
  ghost predicate Apart(issued: seq<string>) {
    forall i, j :: 0 <= i < j < |issued| && j - i <= CAPACITY ==> issued[i] != issued[j]
  }

  /** The first eight draws of the nonce source: the first that is not in use, unless a malformed one
      comes before it or none of them is fresh. */
  function Pick(draws: seq<string>, used: set<string>): (r: Result<string>)
    ensures r.Err? ==> r.error == NotSignable
    ensures r.Ok? ==> r.value in draws && r.value !in used && HexString(r.value, 16, 128)
  {
    if draws == [] || !HexString(draws[0], 16, 128) then Err(NotSignable)
    else if draws[0] !in used then Ok(draws[0])
    else Pick(draws[1..], used)
  }

  /** The draws before the one that is taken, or before the malformed one, are all in use. */
  lemma {:induction false} PickMeans(draws: seq<string>, used: set<string>)
    ensures match Pick(draws, used)
            case Ok(nonce) => exists i :: 0 <= i < |draws| && draws[i] == nonce && AllUsed(draws[..i], used)
            case Err(_) => AllUsed(draws, used)
                           || exists i :: 0 <= i < |draws| && !HexString(draws[i], 16, 128) && AllUsed(draws[..i], used)
  {
    hide HexString;
    if draws != [] && HexString(draws[0], 16, 128) && draws[0] in used {
      PickMeans(draws[1..], used);
      forall i | 0 <= i < |draws[1..]| && AllUsed(draws[1..][..i], used)
        ensures draws[1..][i] == draws[i + 1] && AllUsed(draws[..i + 1], used)
      {
        assert draws[..i + 1] == [draws[0]] + draws[1..][..i];
      }
      assert draws == [draws[0]] + draws[1..];
    } else if draws != [] {
      assert draws[..0] == [];
      assert draws[0] == draws[0];
    }
  }

  predicate AllUsed(draws: seq<string>, used: set<string>) {
    forall i :: 0 <= i < |draws| ==> draws[i] in used && HexString(draws[i], 16, 128)
  }

  /** In numbers: the window holds the last 4096 nonces, and no two of 4097 in a row are the same. */
  lemma {:induction false} NoncesApart(issued: seq<string>)
    requires Apart(issued)
    ensures |Window(issued)| == if |issued| < 4096 then |issued| else 4096
    ensures forall i, j :: 0 <= i < j < |issued| && j <= i + 4096 ==> issued[i] != issued[j]
  {
  }

  class CommandSigner {
    var recent: seq<string>
    var recentSet: set<string>
    const lifetime: int
    ghost var issued: seq<string>

    ghost predicate Valid() reads this {
      && recent == Window(issued)
      && (forall n :: n in recentSet <==> n in recent)
      && Apart(issued)
    }

    constructor (lifetime: int)
      ensures Valid() && issued == [] && this.lifetime == lifetime
    {
      recent, recentSet, this.lifetime, issued := [], {}, lifetime, [];
    }

    method RememberNonce(nonce: string)
      requires Valid() && nonce !in recentSet
      modifies this`recent, this`recentSet, this`issued
      ensures Valid() && issued == old(issued) + [nonce]
    {
      WindowApart(issued, nonce);
      WindowGrows(issued, nonce);
      hide Apart; hide Window;
      recent := recent + [nonce];
      recentSet := recentSet + {nonce};
      issued := issued + [nonce];
      while |recent| > CAPACITY
        invariant issued == old(issued) + [nonce] && Apart(issued)
        invariant forall n :: n in recentSet <==> n in recent
        invariant recent == Window(issued) ||
                  (|recent| == CAPACITY + 1 && recent[1..] == Window(issued) && recent[0] !in recent[1..])
        decreases |recent|
      {
        recentSet := recentSet - {recent[0]};
        recent := recent[1..];
      }
    }

    /** `_fresh_nonce`, for the eight values the source would give. */
    method FreshNonce(draws: seq<string>) returns (r: Result<string>)
      requires Valid() && |draws| == 8
      modifies this`recent, this`recentSet, this`issued
      ensures Valid() && r == Pick(draws, old(recentSet))
      ensures issued == old(issued) + (if r.Ok? then [r.value] else [])
    {
      for i := 0 to 8
        invariant Valid() && issued == old(issued) && recentSet == old(recentSet)
        invariant Pick(draws, recentSet) == Pick(draws[i..], recentSet)
      {
        assert draws[i..][1..] == draws[i + 1..];
        var nonce := draws[i];
        if !HexString(nonce, 16, 128) {
          return Err(NotSignable);
        }
        if nonce !in recentSet {
          RememberNonce(nonce);
          return Ok(nonce);
        }
      }
      r := Err(NotSignable);
    }

    /** Everything that `sign` checks before it takes a nonce. */
    predicate Admits(rt: Runtime, secret: Option<string>, message: seq<Field>, worker: string, command: string,
                     window: Option<int>)
    {
      && secret.Some? && SafeIdentifier(worker) && SafeIdentifier(command)
      && 1 <= Life(window) <= 900 && CanonicalBody(rt, message).Ok?
    }

    function Life(window: Option<int>): int {
      if window.None? then lifetime else window.value
    }

    /** `CommandSigner.sign`: whatever it returns verifies.  A command that is refused uses up no nonce,
        except when its text cannot be encoded, which the code finds out after it has taken one. */
    method Sign(rt: Runtime, secret: Option<string>, message: seq<Field>, worker: string, command: string,
                window: Option<int>, draws: seq<string>, now: int)
      returns (r: Result<seq<Field>>)
      requires Valid() && |draws| == 8 && HexMac(rt)
      modifies this`recent, this`recentSet, this`issued
      ensures Valid()
      ensures var nonce := Pick(draws, old(recentSet));
              var taken := Admits(rt, secret, message, worker, command, window) && nonce.Ok?;
              && (if taken then issued == old(issued) + [nonce.value] else issued == old(issued) && r.Err?)
              && (taken ==>
                    var e := Envelope(worker, command, now, now + Life(window), nonce.value);
                    var code := rt.mac(secret.value, SigningString(e, Print(Body(message))));
                    && (r.Ok? <==> code.Some?)
                    && (r.Err? ==> r.error == NotEncodable)
                    && (r.Ok? ==>
                          && Verify(rt, r.value, secret.value, worker) == Ok(true)
                          && Body(r.value) == Body(message)
                          && ReadAuth(Lookup(r.value, "auth")) == Some((e, code.value))))
      ensures r.Err? ==> (r.error == SecretMissing <==> secret.None?)
    {
      hide Verify; hide SigningString; hide Print; hide Signable; hide ReadAuth; hide Without; hide Lookup; hide HexMac;
      hide SafeIdentifier; hide HexString; hide Pick;
      if secret.None? {
        return Err(SecretMissing);
      }
      var life := if window.None? then lifetime else window.value;
      if !SafeIdentifier(worker) || !SafeIdentifier(command) || life < 1 || life > MAX_LIFETIME {
        return Err(NotSignable);
      }
      var body := CanonicalBody(rt, message);
      if body.Err? {
        return Err(body.error);
      }
      var nonce := FreshNonce(draws);
      if nonce.Err? {
        return Err(nonce.error);
      }
      var e := Envelope(worker, command, now, now + life, nonce.value);
      r := SignCommand(rt, secret.value, message, e);
      if r.Ok? {
        SignedVerifies(rt, secret.value, message, e);
        SignedShape(rt, secret.value, message, e);
      }
    }
  }

  lemma {:induction false} WindowApart(issued: seq<string>, nonce: string)
    requires Apart(issued) && nonce !in Window(issued)
    ensures Apart(issued + [nonce])
  {
    var s := issued + [nonce];
    forall i | 0 <= i < |issued| && |issued| - i <= CAPACITY ensures issued[i] != nonce {
      var k := |issued| - |Window(issued)|;
      assert Window(issued)[i - k] == issued[i];
    }
  }

  /** One more nonce either fits the window or pushes the oldest one out, which then is gone for good. */
  lemma {:induction false} WindowGrows(issued: seq<string>, nonce: string)
    requires Apart(issued) && nonce !in Window(issued)
    ensures var longer := Window(issued) + [nonce];
            if |issued| < CAPACITY then longer == Window(issued + [nonce])
            else |longer| == CAPACITY + 1 && longer[1..] == Window(issued + [nonce]) && longer[0] !in longer[1..]
  {
    if |issued| >= CAPACITY {
      var k := |issued| - CAPACITY;
      var longer := Window(issued) + [nonce];
      assert Window(issued) == issued[k..];
      forall i | 1 <= i < |longer| ensures longer[i] != longer[0] {
        if i < CAPACITY {
          assert longer[i] == issued[k + i] && longer[0] == issued[k];
        } else {
          assert longer[0] in Window(issued);
        }
      }
    }
  }
}
