/**
 The symmetric state of the handshake (whatsmeow/socket/noisehandshake.go), after section 5.2 of the Noise Protocol
 Framework, revision 34.
 */
module Noise {
  import opened Basics
  import opened BigEndian

  type Uint32 = x: int | 0 <= x < 0x1_0000_0000

  /** Key material that gcmutil.Prepare accepts as an AES-256 key. */
  const KEY_LENGTH := 32

  /** AES-GCM appends a tag of this size to the ciphertext. */
  const TAG_LENGTH := 16

  /** SHA-256, HKDF-SHA-256 read twice, AES-256-GCM and X25519 (which refuses low-order points). */
  datatype Primitives = Primitives(
    sha256: Bytes -> Bytes,
    expand: (Bytes, Bytes) -> (Bytes, Bytes),
    aeadSeal: (Bytes, Bytes, Bytes, Bytes) -> Bytes,
    aeadOpen: (Bytes, Bytes, Bytes, Bytes) -> Option<Bytes>,
    x25519: (Bytes, Bytes) -> Option<Bytes>,
    publicKey: Bytes -> Bytes)
  {
    /** The only laws used: sizes, opening undoes sealing, and both sides compute one shared secret. */
    ghost predicate Valid() {
      && (forall d :: |sha256(d)| == KEY_LENGTH)
      && (forall s, d :: |expand(s, d).0| == KEY_LENGTH && |expand(s, d).1| == KEY_LENGTH)
      && (forall k, n, m, a :: aeadOpen(k, n, aeadSeal(k, n, m, a), a) == Some(m))
      && (forall k, n, m, a :: |aeadSeal(k, n, m, a)| == |m| + TAG_LENGTH)
      && (forall a, b :: x25519(a, publicKey(b)) == x25519(b, publicKey(a)))
      && (forall a :: |publicKey(a)| == KEY_LENGTH)
    }
  }

  datatype Symmetric = Symmetric(hash: Bytes, salt: Bytes, key: Bytes, counter: Uint32)

  /** generateIV: eight zero bytes and the counter, most significant byte first. */
  function IV(count: Uint32): (iv: Bytes)
    ensures |iv| == 12
  {
    [0, 0, 0, 0, 0, 0, 0, 0] + IntBytes(count, 4)
  }

  /** atomic.AddUint32 wraps around. */
  function Increment(c: Uint32): Uint32 {
    (c + 1) % 0x1_0000_0000
  }

  function Authenticate(p: Primitives, s: Symmetric, data: Bytes): Symmetric {
    s.(hash := p.sha256(s.hash + data))
  }

  /** Start leaves the counter as it was: only a fresh handshake begins at zero. */
  function Start(p: Primitives, counter: Uint32, pattern: Bytes, header: Bytes): Symmetric {
    var h := if |pattern| == KEY_LENGTH then pattern else p.sha256(pattern);
    Authenticate(p, Symmetric(h, h, h, counter), header)
  }

  function Sealed(p: Primitives, s: Symmetric, plaintext: Bytes): Bytes {
    p.aeadSeal(s.key, IV(s.counter), plaintext, s.hash)
  }

  function Opened(p: Primitives, s: Symmetric, ciphertext: Bytes): Option<Bytes> {
    p.aeadOpen(s.key, IV(s.counter), ciphertext, s.hash)
  }

  function AfterEncrypt(p: Primitives, s: Symmetric, plaintext: Bytes): Symmetric {
    Authenticate(p, s.(counter := Increment(s.counter)), Sealed(p, s, plaintext))
  }

  /** A ciphertext that does not open uses up a counter value and is not authenticated. */
  function AfterDecrypt(p: Primitives, s: Symmetric, ciphertext: Bytes): Symmetric {
    var t := s.(counter := Increment(s.counter));
    if Opened(p, s, ciphertext).Some? then Authenticate(p, t, ciphertext) else t
  }

  function MixIntoKey(p: Primitives, s: Symmetric, data: Bytes): Symmetric {
    var (write, read) := p.expand(s.salt, data);
    Symmetric(s.hash, write, read, 0)
  }

  // ---- Runs

  datatype Step = Auth(data: Bytes) | Encrypt(plaintext: Bytes) | Decrypt(ciphertext: Bytes) | Mix(data: Bytes)

  function After(p: Primitives, s: Symmetric, step: Step): Symmetric {
    match step
    case Auth(data) => Authenticate(p, s, data)
    case Encrypt(plaintext) => AfterEncrypt(p, s, plaintext)
    case Decrypt(ciphertext) => AfterDecrypt(p, s, ciphertext)
    case Mix(data) => MixIntoKey(p, s, data)
  }

  function Run(p: Primitives, s: Symmetric, steps: seq<Step>): Symmetric
    decreases steps
  {
    if steps == [] then s else Run(p, After(p, s, steps[0]), steps[1..])
  }

  /** The message of a step, as the endpoint that makes the step knows it; None when a ciphertext does not open. */
  function Message(p: Primitives, s: Symmetric, step: Step): Option<Bytes> {
    match step
    case Encrypt(plaintext) => Some(plaintext)
    case Decrypt(ciphertext) => Opened(p, s, ciphertext)
    case _ => None
  }

  function Messages(p: Primitives, s: Symmetric, steps: seq<Step>): (r: seq<Option<Bytes>>)
    ensures |r| == |steps|
    decreases steps
  {
    if steps == [] then [] else [Message(p, s, steps[0])] + Messages(p, After(p, s, steps[0]), steps[1..])
  }

  /** What one endpoint encrypts the other decrypts; everything else is the same on both sides. */
  predicate DualStep(p: Primitives, s: Symmetric, a: Step, b: Step) {
    match (a, b)
    case (Encrypt(m), Decrypt(c)) => c == Sealed(p, s, m)
    case (Decrypt(c), Encrypt(m)) => c == Sealed(p, s, m)
    case (Auth(x), Auth(y)) => x == y
    case (Mix(x), Mix(y)) => x == y
    case _ => false
  }

  predicate Dual(p: Primitives, s: Symmetric, a: seq<Step>, b: seq<Step>)
    decreases a
  {
    |a| == |b| && (a == [] || (DualStep(p, s, a[0], b[0]) && Dual(p, After(p, s, a[0]), a[1..], b[1..])))
  }

  lemma MirrorStep(p: Primitives, s: Symmetric, a: Step, b: Step)
    requires p.Valid() && DualStep(p, s, a, b)
    ensures After(p, s, a) == After(p, s, b) && Message(p, s, a) == Message(p, s, b)
    ensures a.Encrypt? || a.Decrypt? ==> Message(p, s, a).Some?
  {
  }

  /** Endpoints that run dual steps keep equal hash, salt, key and counter, and each recovers every plaintext. */
  lemma {:induction false} MirrorAgreement(p: Primitives, s: Symmetric, a: seq<Step>, b: seq<Step>)
    requires p.Valid() && Dual(p, s, a, b)
    ensures Run(p, s, a) == Run(p, s, b)
    ensures Messages(p, s, a) == Messages(p, s, b)
    ensures forall i :: 0 <= i < |a| && (a[i].Encrypt? || a[i].Decrypt?) ==> Messages(p, s, a)[i].Some?
    decreases |a|
  {
    hide After, Message, DualStep;
    if a != [] {
      MirrorStep(p, s, a[0], b[0]);
      MirrorAgreement(p, After(p, s, a[0]), a[1..], b[1..]);
    }
  }

  // ---- The hash commits to everything that was authenticated

  /** What a run mixed into its hash, in order. */
  function Transcript(p: Primitives, s: Symmetric, steps: seq<Step>): seq<Bytes>
    decreases steps
  {
    if steps == [] then []
    else
      var rest := Transcript(p, After(p, s, steps[0]), steps[1..]);
      match steps[0]
      case Auth(data) => [data] + rest
      case Encrypt(plaintext) => [Sealed(p, s, plaintext)] + rest
      case Decrypt(ciphertext) => if Opened(p, s, ciphertext).Some? then [ciphertext] + rest else rest
      case Mix(_) => rest
  }

  function Absorb(p: Primitives, h: Bytes, transcript: seq<Bytes>): Bytes
    decreases transcript
  {
    if transcript == [] then h else Absorb(p, p.sha256(h + transcript[0]), transcript[1..])
  }

  lemma {:induction false} HashIsAbsorbed(p: Primitives, s: Symmetric, steps: seq<Step>)
    ensures Run(p, s, steps).hash == Absorb(p, s.hash, Transcript(p, s, steps))
    decreases steps
  {
    if steps != [] {
      HashIsAbsorbed(p, After(p, s, steps[0]), steps[1..]);
    }
  }

  predicate Collides(p: Primitives, x: Bytes, y: Bytes) {
    x != y && p.sha256(x) == p.sha256(y)
  }

  lemma {:induction false} AbsorbIsBinding(p: Primitives, g: Bytes, h: Bytes, a: seq<Bytes>, b: seq<Bytes>)
    returns (x: Bytes, y: Bytes)
    requires p.Valid() && |g| == |h| == KEY_LENGTH && |a| == |b|
    requires Absorb(p, g, a) == Absorb(p, h, b)
    ensures (g == h && a == b) || Collides(p, x, y)
    decreases |a|
  {
    if a == [] {
      x, y := [], [];
    } else {
      x, y := g + a[0], h + b[0];
      if p.sha256(x) == p.sha256(y) && x == y {
        assert x[..KEY_LENGTH] == g && y[..KEY_LENGTH] == h;
        assert x[KEY_LENGTH..] == a[0] && y[KEY_LENGTH..] == b[0];
        x, y := AbsorbIsBinding(p, p.sha256(g + a[0]), p.sha256(h + b[0]), a[1..], b[1..]);
        assert a == [a[0]] + a[1..] && b == [b[0]] + b[1..];
      } else if p.sha256(x) != p.sha256(y) {
        x, y := AbsorbIsBinding(p, p.sha256(g + a[0]), p.sha256(h + b[0]), a[1..], b[1..]);
      }
    }
  }

  /**
   Two runs, from any states, that authenticated equally many values and end with equal hashes started with equal
   hashes and authenticated equal values, unless they exhibit a collision of SHA-256.
   */
  lemma TranscriptsAgree(p: Primitives, s: Symmetric, a: seq<Step>, t: Symmetric, b: seq<Step>)
    returns (x: Bytes, y: Bytes)
    requires p.Valid() && |s.hash| == |t.hash| == KEY_LENGTH
    requires |Transcript(p, s, a)| == |Transcript(p, t, b)|
    requires Run(p, s, a).hash == Run(p, t, b).hash
    ensures (s.hash == t.hash && Transcript(p, s, a) == Transcript(p, t, b)) || Collides(p, x, y)
  {
    HashIsAbsorbed(p, s, a);
    HashIsAbsorbed(p, t, b);
    x, y := AbsorbIsBinding(p, s.hash, t.hash, Transcript(p, s, a), Transcript(p, t, b));
  }

  // ---- Nonces

  /** One use of the AEAD: the number of key changes before it, and its nonce. */
  datatype Use = Use(epoch: nat, iv: Bytes)

  function Uses(p: Primitives, s: Symmetric, epoch: nat, steps: seq<Step>): seq<Use>
    decreases steps
  {
    if steps == [] then []
    else
      var later := Uses(p, After(p, s, steps[0]), if steps[0].Mix? then epoch + 1 else epoch, steps[1..]);
      if steps[0].Encrypt? || steps[0].Decrypt? then [Use(epoch, IV(s.counter))] + later else later
  }

  lemma IVsDiffer(a: Uint32, b: Uint32)
    ensures IV(a) == IV(b) <==> a == b
  {
    ShiftLeftOne();
    IntRoundTrip(a, 4);
    IntRoundTrip(b, 4);
    assert IV(a)[8..] == IntBytes(a, 4) && IV(b)[8..] == IntBytes(b, 4);
  }

  lemma CounterAfter(p: Primitives, s: Symmetric, step: Step, i: nat)
    requires i > 0 && (step.Encrypt? || step.Decrypt?)
    ensures (After(p, s, step).counter + (i - 1)) % 0x1_0000_0000 == (s.counter + i) % 0x1_0000_0000
  {
    assert After(p, s, step).counter == Increment(s.counter);
  }

  /** The i-th use of an epoch has the counter the epoch began with plus i, modulo 2^32. */
  lemma {:induction false} UseAt(p: Primitives, s: Symmetric, epoch: nat, steps: seq<Step>, i: nat)
    requires i < |Uses(p, s, epoch, steps)|
    ensures var u := Uses(p, s, epoch, steps)[i];
      u.epoch >= epoch && (u.epoch == epoch ==> u.iv == IV((s.counter + i) % 0x1_0000_0000))
    decreases |steps|
  {
    hide IV, Opened;
    var t := After(p, s, steps[0]);
    if steps[0].Encrypt? || steps[0].Decrypt? {
      if i > 0 {
        UseAt(p, t, epoch, steps[1..], i - 1);
        CounterAfter(p, s, steps[0], i);
        hide After, Increment;
      }
    } else {
      UseAt(p, t, if steps[0].Mix? then epoch + 1 else epoch, steps[1..], i);
    }
  }

  lemma Wraps(c: Uint32, i: nat, j: nat)
    requires i < j
    ensures (c + i) % 0x1_0000_0000 == (c + j) % 0x1_0000_0000 <==> (j - i) % 0x1_0000_0000 == 0
  {
  }

  /** From its i-th use on, a run looks like a run that begins there. */
  lemma {:induction false} UsesFrom(p: Primitives, s: Symmetric, epoch: nat, steps: seq<Step>, i: nat)
    returns (t: Symmetric, e: nat, tail: seq<Step>)
    requires i < |Uses(p, s, epoch, steps)|
    ensures Uses(p, t, e, tail) == Uses(p, s, epoch, steps)[i..] && Uses(p, t, e, tail)[0] == Use(e, IV(t.counter))
    decreases |steps|
  {
    var next, e1 := After(p, s, steps[0]), if steps[0].Mix? then epoch + 1 else epoch;
    if !steps[0].Encrypt? && !steps[0].Decrypt? {
      t, e, tail := UsesFrom(p, next, e1, steps[1..], i);
    } else if i == 0 {
      t, e, tail := s, epoch, steps;
      assert Uses(p, s, epoch, steps)[0..] == Uses(p, s, epoch, steps);
    } else {
      t, e, tail := UsesFrom(p, next, e1, steps[1..], i - 1);
      assert Uses(p, s, epoch, steps)[i..] == Uses(p, next, e1, steps[1..])[i - 1..];
    }
  }

  /**
   Two uses of one key epoch share a nonce exactly when a multiple of 2^32 uses lies between them: below 2^32 uses
   none is repeated.
   */
  lemma NonceReuse(p: Primitives, s: Symmetric, steps: seq<Step>, i: nat, j: nat)
    requires i < j < |Uses(p, s, 0, steps)| && Uses(p, s, 0, steps)[i].epoch == Uses(p, s, 0, steps)[j].epoch
    ensures Uses(p, s, 0, steps)[i].iv == Uses(p, s, 0, steps)[j].iv <==> (j - i) % 0x1_0000_0000 == 0
  {
    hide Uses, IV;
    var t, e, tail := UsesFrom(p, s, 0, steps, i);
    UseAt(p, t, e, tail, j - i);
    IVsDiffer(t.counter, (t.counter + (j - i)) % 0x1_0000_0000);
    Wraps(t.counter, 0, j - i);
  }
}
