/** The handshake object and the client's side of Noise XX (whatsmeow/socket/noisehandshake.go, whatsmeow/handshake.go). */
module NoiseHandshakes {
  import opened Basics
  import N = Noise
  import opened Noise

  /** Noise_XX_25519_AESGCM_SHA256 and four zero bytes: 32 bytes, so it is the first hash itself. */
  function StartPattern(): (b: Bytes)
    ensures |b| == KEY_LENGTH
  {
    Ascii("Noise_XX_25519_AESGCM_SHA256") + [0, 0, 0, 0]
  }

  class NoiseHandshake {
    const p: Primitives
    var hash: Bytes
    var salt: Bytes
    /** nil until Start prepares a cipher */
    var key: Option<Bytes>
    var counter: Uint32

    function State(): Symmetric
      requires key.Some?
      reads this
    {
      Symmetric(hash, salt, key.value, counter)
    }

    constructor (p: Primitives)
      ensures this.p == p && key == None && counter == 0
    {
      this.p := p;
      hash, salt, key, counter := [], [], None, 0;
    }

    method Start(pattern: Bytes, header: Bytes)
      modifies this
      ensures key.Some? && State() == N.Start(p, old(counter), pattern, header)
    {
      if |pattern| == KEY_LENGTH {
        hash := pattern;
      } else {
        hash := p.sha256(pattern);
      }
      salt := hash;
      key := Some(hash);
      Authenticate(header);
    }

    method Authenticate(data: Bytes)
      modifies this`hash
      ensures hash == p.sha256(old(hash) + data)
    {
      hash := p.sha256(hash + data);
    }

    method PostIncrementCounter() returns (count: Uint32)
      modifies this`counter
      ensures count == old(counter) && counter == Increment(old(counter))
    {
      counter := Increment(counter);
      count := (counter - 1) % 0x1_0000_0000;
    }

    method Encrypt(plaintext: Bytes) returns (ciphertext: Bytes)
      requires key.Some?
      modifies this
      ensures key.Some? && State() == AfterEncrypt(p, old(State()), plaintext)
      ensures ciphertext == Sealed(p, old(State()), plaintext)
    {
      var count := PostIncrementCounter();
      ciphertext := p.aeadSeal(key.value, IV(count), plaintext, hash);
      Authenticate(ciphertext);
    }

    method Decrypt(ciphertext: Bytes) returns (plaintext: Option<Bytes>)
      requires key.Some?
      modifies this
      ensures key.Some? && State() == AfterDecrypt(p, old(State()), ciphertext)
      ensures plaintext == Opened(p, old(State()), ciphertext)
    {
      var count := PostIncrementCounter();
      plaintext := p.aeadOpen(key.value, IV(count), ciphertext, hash);
      if plaintext.Some? {
        Authenticate(ciphertext);
      }
    }

    method MixIntoKey(data: Bytes)
      requires key.Some?
      modifies this
      ensures key.Some? && State() == N.MixIntoKey(p, old(State()), data)
    {
      counter := 0;
      var (write, read) := p.expand(salt, data);
      salt := write;
      key := Some(read);
    }

    /** ok is false, and nothing changes, when X25519 refuses the public key. */
    method MixSharedSecretIntoKey(priv: Bytes, pub: Bytes) returns (ok: bool)
      requires key.Some?
      modifies this
      ensures ok == p.x25519(priv, pub).Some? && key.Some?
      ensures State() == if ok then N.MixIntoKey(p, old(State()), p.x25519(priv, pub).value) else old(State())
    {
      var secret := p.x25519(priv, pub);
      match secret {
        case None =>
          ok := false;
        case Some(s) =>
          MixIntoKey(s);
          ok := true;
      }
    }

    /** The two transport keys: the client writes with the first and reads with the second. */
    method Finish() returns (write: Bytes, read: Bytes)
      ensures (write, read) == p.expand(salt, [])
    {
      var keys := p.expand(salt, []);
      write, read := keys.0, keys.1;
    }
  }

  // ---- The messages, as the fields that protobuf carries

  datatype ServerHello = ServerHello(ephemeral: Bytes, static_: Option<Bytes>, payload: Option<Bytes>)

  datatype ClientFinish = ClientFinish(static_: Bytes, payload: Bytes)

  datatype HandshakeError =
    | NoResponse | MissingParts | EphemeralRefused | StaticUnreadable | StaticLength | StaticRefused
    | CertificateUnreadable | CertificateInvalid | NoiseKeyRefused

  datatype Outcome =
    | Completed(finish: ClientFinish, write: Bytes, read: Bytes)
    | Aborted(error: HandshakeError)

  /** What the client brings: its private keys, its payload and the certificate check. */
  datatype Client = Client(ephemeral: Bytes, noise: Bytes, payload: Bytes, verify: (Bytes, Bytes) -> bool)

  function AfterHello(p: Primitives, header: Bytes, ephemeralPub: Bytes): Symmetric {
    N.Authenticate(p, N.Start(p, 0, StartPattern(), header), ephemeralPub)
  }

  /** Mixing a shared secret, which X25519 may refuse to compute. */
  function MixShared(p: Primitives, s: Symmetric, priv: Bytes, pub: Bytes): Option<Symmetric> {
    match p.x25519(priv, pub)
    case None => None
    case Some(secret) => Some(N.MixIntoKey(p, s, secret))
  }

  /** The client after the server's hello: first its ephemeral key, then its static key and certificate. */
  function OnServerHello(p: Primitives, c: Client, header: Bytes, response: Option<ServerHello>): Outcome {
    if response == None then Aborted(NoResponse)
    else
      var hello := response.value;
      if |hello.ephemeral| != 32 || hello.static_ == None || hello.payload == None then Aborted(MissingParts)
      else
        var s0 := N.Authenticate(p, AfterHello(p, header, p.publicKey(c.ephemeral)), hello.ephemeral);
        match MixShared(p, s0, c.ephemeral, hello.ephemeral)
        case None => Aborted(EphemeralRefused)
        case Some(s1) => OnServerStatic(p, c, s1, hello.ephemeral, hello.static_.value, hello.payload.value)
  }

  function OnServerStatic(p: Primitives, c: Client, s: Symmetric, serverEphemeral: Bytes, sealedStatic: Bytes,
                          sealedCert: Bytes): Outcome
  {
    match Opened(p, s, sealedStatic)
    case None => Aborted(StaticUnreadable)
    case Some(serverStatic) =>
      if |serverStatic| != 32 then Aborted(StaticLength)
      else match MixShared(p, AfterDecrypt(p, s, sealedStatic), c.ephemeral, serverStatic)
        case None => Aborted(StaticRefused)
        case Some(t) =>
          match Opened(p, t, sealedCert)
          case None => Aborted(CertificateUnreadable)
          case Some(cert) =>
            if !c.verify(cert, serverStatic) then Aborted(CertificateInvalid)
            else ClientFinishes(p, c, AfterDecrypt(p, t, sealedCert), serverEphemeral)
  }

  function ClientFinishes(p: Primitives, c: Client, s: Symmetric, serverEphemeral: Bytes): Outcome {
    var pub := p.publicKey(c.noise);
    match MixShared(p, AfterEncrypt(p, s, pub), c.noise, serverEphemeral)
    case None => Aborted(NoiseKeyRefused)
    case Some(t) =>
      var keys := p.expand(AfterEncrypt(p, t, c.payload).salt, []);
      Completed(ClientFinish(Sealed(p, s, pub), Sealed(p, t, c.payload)), keys.0, keys.1)
  }

  /** doHandshake, with the server's answer as an input. */
  method DoHandshake(p: Primitives, c: Client, header: Bytes, response: Option<ServerHello>) returns (r: Outcome)
    ensures r == OnServerHello(p, c, header, response)
  {
    hide N.Start, Sealed, Opened, AfterEncrypt, AfterDecrypt, N.MixIntoKey, StartPattern;
    var nh := new NoiseHandshake(p);
    nh.Start(StartPattern(), header);
    nh.Authenticate(p.publicKey(c.ephemeral));
    if response.None? {
      return Aborted(NoResponse);
    }
    var hello := response.value;
    if |hello.ephemeral| != 32 || hello.static_.None? || hello.payload.None? {
      return Aborted(MissingParts);
    }
    nh.Authenticate(hello.ephemeral);
    var mixed := nh.MixSharedSecretIntoKey(c.ephemeral, hello.ephemeral);
    if !mixed {
      return Aborted(EphemeralRefused);
    }
    var serverStatic := nh.Decrypt(hello.static_.value);
    if serverStatic.None? {
      return Aborted(StaticUnreadable);
    } else if |serverStatic.value| != 32 {
      return Aborted(StaticLength);
    }
    mixed := nh.MixSharedSecretIntoKey(c.ephemeral, serverStatic.value);
    if !mixed {
      return Aborted(StaticRefused);
    }
    var cert := nh.Decrypt(hello.payload.value);
    if cert.None? {
      return Aborted(CertificateUnreadable);
    } else if !c.verify(cert.value, serverStatic.value) {
      return Aborted(CertificateInvalid);
    }
    var sealedPub := nh.Encrypt(p.publicKey(c.noise));
    mixed := nh.MixSharedSecretIntoKey(c.noise, hello.ephemeral);
    if !mixed {
      return Aborted(NoiseKeyRefused);
    }
    var sealedPayload := nh.Encrypt(c.payload);
    var write, read := nh.Finish();
    r := Completed(ClientFinish(sealedPub, sealedPayload), write, read);
  }

  // ---- The other side, as the XX pattern prescribes it

  datatype Server = Server(ephemeral: Bytes, static_: Bytes, cert: Bytes)

  /** The server's answer to a client ephemeral key, and its state after sending it. */
  function Answer(p: Primitives, v: Server, header: Bytes, clientEphemeral: Bytes): Option<(Symmetric, ServerHello)> {
    var s0 := N.Authenticate(p, AfterHello(p, header, clientEphemeral), p.publicKey(v.ephemeral));
    match MixShared(p, s0, v.ephemeral, clientEphemeral)
    case None => None
    case Some(s1) =>
      var pub := p.publicKey(v.static_);
      match MixShared(p, AfterEncrypt(p, s1, pub), v.static_, clientEphemeral)
      case None => None
      case Some(s2) =>
        var hello := ServerHello(p.publicKey(v.ephemeral), Some(Sealed(p, s1, pub)), Some(Sealed(p, s2, v.cert)));
        Some((AfterEncrypt(p, s2, v.cert), hello))
  }

  /** What the server knows in the end: who the client is, what it said, and the keys to read and write with. */
  datatype Session = Session(clientStatic: Bytes, payload: Bytes, read: Bytes, write: Bytes)

  function Accept(p: Primitives, v: Server, s: Symmetric, finish: ClientFinish): Option<Session> {
    match Opened(p, s, finish.static_)
    case None => None
    case Some(clientStatic) =>
      match MixShared(p, AfterDecrypt(p, s, finish.static_), v.ephemeral, clientStatic)
      case None => None
      case Some(t) =>
        match Opened(p, t, finish.payload)
        case None => None
        case Some(payload) =>
          var keys := p.expand(AfterDecrypt(p, t, finish.payload).salt, []);
          Some(Session(clientStatic, payload, keys.0, keys.1))
  }

  /**
   Against a server that follows the pattern, the client completes exactly when X25519 accepts the last key pair and
   the certificate is valid; then the server learns the client's static key and payload, and each side reads with the
   key the other writes with.
   */
  lemma HandshakeAgrees(p: Primitives, c: Client, v: Server, header: Bytes)
    requires p.Valid()
    requires Answer(p, v, header, p.publicKey(c.ephemeral)).Some?
    ensures var (s, hello) := Answer(p, v, header, p.publicKey(c.ephemeral)).value;
      var r := OnServerHello(p, c, header, Some(hello));
      && (r.Completed? <==>
           c.verify(v.cert, p.publicKey(v.static_)) && p.x25519(c.noise, p.publicKey(v.ephemeral)).Some?)
      && (r.Completed? ==>
           Accept(p, v, s, r.finish) == Some(Session(p.publicKey(c.noise), c.payload, r.write, r.read)))
  {
  }
}
