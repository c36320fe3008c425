/** WhatsApp addresses and their text form (whatsmeow/types/jid.go). */
module Jid {
  import opened Basics
  import opened Decimal

  const DefaultUserServer: Bytes := Ascii("s.whatsapp.net")
  const HiddenUserServer: Bytes := Ascii("lid")
  const MessengerServer: Bytes := Ascii("msgr")
  const InteropServer: Bytes := Ascii("interop")
  const HostedServer: Bytes := Ascii("hosted")
  const HostedLIDServer: Bytes := Ascii("hosted.lid")

  const WhatsAppDomain: Byte := 0
  const LIDDomain: Byte := 1
  const HostedDomain: Byte := 128
  const HostedLIDDomain: Byte := 129

  const AT: Byte := 64
  const DOT: Byte := 46
  const COLON: Byte := 58

  datatype JID = JID(user: Bytes, rawAgent: Byte, device: Uint16, integrator: Uint16, server: Bytes) {

    function ActualAgent(): Byte {
      if server == DefaultUserServer then WhatsAppDomain
      else if server == HiddenUserServer then LIDDomain
      else if server == HostedServer then HostedDomain
      else if server == HostedLIDServer then HostedLIDDomain
      else rawAgent
    }

    /** The text form: four shapes, chosen by which parts are present. */
    function String(): Bytes {
      if rawAgent > 0 then
        user + [DOT] + (FormatNat(rawAgent) + [COLON] + FormatNat(device)) + [AT] + server
      else if device > 0 then user + [COLON] + FormatNat(device) + [AT] + server
      else if |user| > 0 then user + [AT] + server
      else server
    }

    /** What a caller can check before printing: the parts hold none of the separators that the printed shape uses. */
    predicate Printable() {
      && integrator == 0
      && AT !in user
      && AT !in server
      && DOT !in user
      && (rawAgent == 0 ==> COLON !in user)
    }
  }

  function NewJID(user: Bytes, server: Bytes): JID {
    JID(user, 0, 0, 0, server)
  }

  /** An agent that is none of the four known domains leaves the server empty, as the source's empty default case does. */
  function NewADJID(user: Bytes, agent: Byte, device: Byte): JID {
    if agent == LIDDomain then JID(user, 0, device, 0, HiddenUserServer)
    else if agent == HostedDomain then JID(user, 0, device, 0, HostedServer)
    else if agent == HostedLIDDomain then JID(user, 0, device, 0, HostedLIDServer)
    else if agent == WhatsAppDomain then JID(user, agent, device, 0, DefaultUserServer)
    else JID(user, agent, device, 0, [])
  }

  /** Only the four known domains have a server. */
  lemma ServerOfADJID(user: Bytes, agent: Byte, device: Byte)
    ensures NewADJID(user, agent, device).server == []
      <==> agent !in {WhatsAppDomain, LIDDomain, HostedDomain, HostedLIDDomain}
  {
    ServersDiffer();
    assert |DefaultUserServer| == 14 && |HiddenUserServer| == 3 && |HostedServer| == 6 && |HostedLIDServer| == 10;
  }

  function IndexOf(s: Bytes, c: Byte): (i: nat)
    requires c in s
    ensures i < |s| && s[i] == c && c !in s[..i]
  {
    if s[0] == c then 0 else 1 + IndexOf(s[1..], c)
  }

  /** strings.Split with a one-byte separator. */
  function Split(s: Bytes, c: Byte): (parts: seq<Bytes>)
    ensures |parts| >= 1
    ensures forall i :: 0 <= i < |parts| ==> c !in parts[i]
    ensures |parts| == 1 <==> c !in s
    ensures parts[0] <= s
    decreases |s|
  {
    if c !in s then [s]
    else
      var i := IndexOf(s, c);
      [s[..i]] + Split(s[i + 1..], c)
  }

  datatype ParseResult = Parsed(jid: JID) | Malformed

  function ParseJID(text: Bytes): ParseResult {
    var parts := Split(text, AT);
    if |parts| == 1 then Parsed(NewJID([], parts[0]))
    else ParseUserPart(parts[0], parts[1])
  }

  function ParseUserPart(userPart: Bytes, server: Bytes): ParseResult {
    if DOT in userPart then
      var parts := Split(userPart, DOT);
      if |parts| != 2 then Malformed else ParseAgentDevice(parts[0], Split(parts[1], COLON), server)
    else if COLON in userPart then
      ParseDevice(Split(userPart, COLON), server)
    else Parsed(NewJID(userPart, server))
  }

  function ParseDevice(parts: seq<Bytes>, server: Bytes): ParseResult {
    if |parts| != 2 then Malformed
    else match Atoi(parts[1])
      case None => Malformed
      case Some(device) => Parsed(JID(parts[0], 0, device % 0x1_0000, 0, server))
  }

  function ParseAgentDevice(user: Bytes, parts: seq<Bytes>, server: Bytes): ParseResult
    requires |parts| >= 1
  {
    if |parts| > 2 then Malformed
    else match Atoi(parts[0])
      case None => Malformed
      case Some(agent) =>
        if |parts| == 1 then Parsed(JID(user, agent % 256, 0, 0, server))
        else match Atoi(parts[1])
          case None => Malformed
          case Some(device) => Parsed(JID(user, agent % 256, device % 0x1_0000, 0, server))
  }

  lemma {:induction false} IndexOfFirst(a: Bytes, c: Byte, b: Bytes)
    requires c !in a
    ensures IndexOf(a + [c] + b, c) == |a|
  {
    assert (a + [c] + b)[|a|] == c;
  }

  /** Splitting at a separator that the left part does not hold. */
  lemma SplitFirst(a: Bytes, c: Byte, b: Bytes)
    requires c !in a
    ensures Split(a + [c] + b, c) == [a] + Split(b, c)
  {
    var s := a + [c] + b;
    IndexOfFirst(a, c, b);
    assert s[|a|] == c;
    assert s[..|a|] == a;
    assert s[|a| + 1..] == b;
  }

  lemma SplitPair(a: Bytes, c: Byte, b: Bytes)
    requires c !in a && c !in b
    ensures Split(a + [c] + b, c) == [a, b]
  {
    SplitFirst(a, c, b);
    assert [a] + [b] == [a, b];
  }

  lemma DigitsHaveNoSeparator(s: Bytes)
    requires AllDigits(s)
    ensures AT !in s && DOT !in s && COLON !in s
  {
  }

  lemma UserPartParses(userPart: Bytes, server: Bytes)
    requires AT !in userPart && AT !in server
    ensures ParseJID(userPart + [AT] + server) == ParseUserPart(userPart, server)
  {
    SplitFirst(userPart, AT, server);
  }

  lemma AgentFormParses(user: Bytes, ad: Bytes, server: Bytes)
    requires DOT !in user && DOT !in ad
    ensures ParseUserPart(user + [DOT] + ad, server) == ParseAgentDevice(user, Split(ad, COLON), server)
  {
    assert (user + [DOT] + ad)[|user|] == DOT;
    SplitPair(user, DOT, ad);
  }

  lemma AgentTextParses(user: Bytes, a: Bytes, d: Bytes, server: Bytes)
    requires AT !in user && DOT !in user && AT !in server
    requires AT !in a && DOT !in a && COLON !in a
    requires AT !in d && DOT !in d && COLON !in d
    ensures ParseJID(user + [DOT] + (a + [COLON] + d) + [AT] + server) == ParseAgentDevice(user, [a, d], server)
  {
    var ad := a + [COLON] + d;
    UserPartParses(user + [DOT] + ad, server);
    AgentFormParses(user, ad, server);
    SplitPair(a, COLON, d);
  }

  lemma DeviceTextParses(user: Bytes, d: Bytes, server: Bytes)
    requires AT !in user && DOT !in user && COLON !in user && AT !in server
    requires AT !in d && DOT !in d && COLON !in d
    ensures ParseJID(user + [COLON] + d + [AT] + server) == ParseDevice([user, d], server)
  {
    UserPartParses(user + [COLON] + d, server);
    assert (user + [COLON] + d)[|user|] == COLON;
    SplitPair(user, COLON, d);
  }

  lemma FieldsParse(user: Bytes, a: Bytes, d: Bytes, agent: Byte, device: Uint16, server: Bytes)
    requires Atoi(a) == Some(agent) && Atoi(d) == Some(device)
    ensures ParseAgentDevice(user, [a, d], server) == Parsed(JID(user, agent, device, 0, server))
    ensures ParseDevice([user, d], server) == Parsed(JID(user, 0, device, 0, server))
  {
  }

  lemma PrintedNumbers(n: Uint16)
    ensures var t := FormatNat(n); Atoi(t) == Some(n) && AT !in t && DOT !in t && COLON !in t
  {
    AtoiOfFormatNat(n);
    DigitsHaveNoSeparator(FormatNat(n));
  }

  /** A printable address parses back to itself, whichever of the four shapes it was printed in. */
  lemma PrintableRoundTrips(j: JID)
    requires j.Printable()
    ensures ParseJID(j.String()) == Parsed(j)
  {
    if j.rawAgent > 0 || j.device > 0 {
      assert ParseJID(j.String()) == Parsed(j) by {
        NumberedRoundTrips(j);
      }
    } else if |j.user| > 0 {
      UserPartParses(j.user, j.server);
    }
  }

  lemma NumberedRoundTrips(j: JID)
    requires j.Printable() && (j.rawAgent > 0 || j.device > 0)
    ensures ParseJID(j.String()) == Parsed(j)
  {
    var a, d := FormatNat(j.rawAgent), FormatNat(j.device);
    PrintedNumbers(j.rawAgent);
    PrintedNumbers(j.device);
    FieldsParse(j.user, a, d, j.rawAgent, j.device, j.server);
    if j.rawAgent > 0 {
      AgentTextParses(j.user, a, d, j.server);
    } else {
      DeviceTextParses(j.user, d, j.server);
    }
  }

  /** Whatever parses has a user without '@' or '.', a server without '@' and no integrator. */
  lemma ParsedShape(text: Bytes)
    requires ParseJID(text).Parsed?
    ensures var j := ParseJID(text).jid;
      && j.integrator == 0 && AT !in j.user && AT !in j.server && DOT !in j.user
  {
    var parts := Split(text, AT);
    if |parts| > 1 {
      var userPart := parts[0];
      if DOT in userPart {
        var us := Split(userPart, DOT);
        assert us[0] <= userPart;
      } else if COLON in userPart {
        var us := Split(userPart, COLON);
        assert us[0] <= userPart;
      }
    }
  }

  /** Without an agent the printed user part has no '.', so any ':' in the user is taken as the separator. */
  lemma ColonInUserIsLost(j: JID)
    requires j.rawAgent == 0 && COLON in j.user
    requires AT !in j.user && DOT !in j.user && AT !in j.server
    ensures ParseJID(j.String()) != Parsed(j)
  {
    var device := FormatNat(j.device);
    DigitsHaveNoSeparator(device);
    var userPart := if j.device > 0 then j.user + [COLON] + device else j.user;
    assert j.String() == userPart + [AT] + j.server;
    SplitFirst(userPart, AT, j.server);
    assert COLON in userPart && DOT !in userPart;
    var parts := Split(userPart, COLON);
    assert COLON !in parts[0];
  }

  /** Printing then parsing gives the same address back exactly when it is printable. */
  lemma StringRoundTrip(j: JID)
    ensures ParseJID(j.String()) == Parsed(j) <==> j.Printable()
  {
    if j.Printable() {
      PrintableRoundTrips(j);
    } else if ParseJID(j.String()) == Parsed(j) {
      ParsedShape(j.String());
      ColonInUserIsLost(j);
    }
  }

  /** Two printable addresses never share a text form. */
  lemma StringInjective(a: JID, b: JID)
    requires a.Printable() && b.Printable() && a.String() == b.String()
    ensures a == b
  {
    StringRoundTrip(a);
    StringRoundTrip(b);
  }

  lemma ServersDiffer()
    ensures DefaultUserServer != HiddenUserServer && DefaultUserServer != HostedServer && DefaultUserServer != HostedLIDServer
    ensures HiddenUserServer != HostedServer && HiddenUserServer != HostedLIDServer && HostedServer != HostedLIDServer
    ensures MessengerServer != DefaultUserServer && MessengerServer != HiddenUserServer && MessengerServer != HostedServer
    ensures MessengerServer != HostedLIDServer && MessengerServer != InteropServer
    ensures InteropServer != DefaultUserServer && InteropServer != HiddenUserServer && InteropServer != HostedServer
    ensures InteropServer != HostedLIDServer
  {
    assert |DefaultUserServer| == 14 && |HiddenUserServer| == 3 && |MessengerServer| == 4;
    assert |InteropServer| == 7 && |HostedServer| == 6 && |HostedLIDServer| == 10;
  }
}
