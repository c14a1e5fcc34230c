/** The messages of the Haskell package eventlog-socket-control: the guards on user
    namespaces, and the serialiser and deserialiser for commands. */
module ControlMessages {
  import opened Bytes
  import opened NamespaceStore
  import opened CommandParser

  const NAMESPACE_MAX_BYTES := 255

  datatype NamespaceResult = Namespace(name: seq<byte>) | Reserved | TooLong

  /** userNamespace. Namespaces are given by their UTF-8 bytes. */
  function UserNamespace(name: seq<byte>): (r: NamespaceResult)
    ensures r.Namespace? <==> name != BUILTIN_NAME && |name| <= NAMESPACE_MAX_BYTES
    ensures r.Reserved? <==> name == BUILTIN_NAME
    ensures r.TooLong? <==> name != BUILTIN_NAME && |name| > NAMESPACE_MAX_BYTES
    ensures r.Namespace? ==> r.name == name
  {
    if name == BUILTIN_NAME then Reserved
    else if |name| > NAMESPACE_MAX_BYTES then TooLong
    else Namespace(name)
  }

  datatype Message = Message(name: seq<byte>, id: byte)

  /** The commands that can be built: the length is asserted by the serialiser. */
  predicate Sendable(m: Message) {
    |m.name| <= NAMESPACE_MAX_BYTES
  }

  function PutWithVersion(version: byte, m: Message): seq<byte>
    requires Sendable(m)
  {
    MAGIC + [version] + [|m.name| as byte] + m.name + [m.id]
  }

  /** The serialiser: the version byte is always the package's own version, 0. */
  function Put(m: Message): seq<byte>
    requires Sendable(m)
  {
    PutWithVersion(PROTOCOL_VERSION, m)
  }

  /** The deserialiser, run on a byte string: the message and the bytes left over. The
      supported versions are those at or above version 0, so that none is refused. */
  function Get(s: seq<byte>): (r: Option<(Message, seq<byte>)>)
    ensures r.Some? ==> Sendable(r.value.0)
  {
    if |s| < MAGIC_LEN + 2 || s[..MAGIC_LEN] != MAGIC then None
    else
      var len: nat := s[MAGIC_LEN + 1];
      var rest := s[MAGIC_LEN + 2..];
      if |rest| < len + 1 then None
      else Some((Message(rest[..len], rest[len]), rest[len + 1..]))
  }

  lemma PutLayout(version: byte, m: Message, rest: seq<byte>)
    requires Sendable(m)
    ensures var s := PutWithVersion(version, m) + rest;
      && |s| == MAGIC_LEN + 3 + |m.name| + |rest|
      && s[..MAGIC_LEN] == MAGIC && s[MAGIC_LEN] == version && s[MAGIC_LEN + 1] == |m.name|
      && s[MAGIC_LEN + 2..] == m.name + [m.id] + rest
  {
    var s := PutWithVersion(version, m) + rest;
    assert s == MAGIC + ([version] + ([|m.name| as byte] + (m.name + [m.id] + rest)));
  }

  /** What is serialised is deserialised, and nothing after it is consumed. */
  lemma GetPut(version: byte, m: Message, rest: seq<byte>)
    requires Sendable(m)
    ensures Get(PutWithVersion(version, m) + rest) == Some((m, rest))
  {
    PutLayout(version, m, rest);
    var tail := m.name + [m.id] + rest;
    assert tail[..|m.name|] == m.name && tail[|m.name| + 1..] == rest;
  }

  /** The deserialiser accepts exactly the serialised messages under any version byte. */
  lemma GetAccepts(s: seq<byte>, m: Message, rest: seq<byte>)
    ensures Get(s) == Some((m, rest)) <==>
      Sendable(m) && exists version: byte :: s == PutWithVersion(version, m) + rest
  {
    if Get(s) == Some((m, rest)) {
      var version := s[MAGIC_LEN];
      var tail := s[MAGIC_LEN + 2..];
      assert tail == m.name + [m.id] + rest;
      assert s == s[..MAGIC_LEN] + [version] + [s[MAGIC_LEN + 1]] + tail;
      assert s == PutWithVersion(version, m) + rest;
    }
    if Sendable(m) && exists version: byte :: s == PutWithVersion(version, m) + rest {
      var version: byte :| s == PutWithVersion(version, m) + rest;
      GetPut(version, m, rest);
    }
  }

  /** No message is a proper prefix of another, so that a concatenation of messages can be
      read back in only one way. */
  lemma PutIsPrefixCode(a: Message, b: Message)
    requires Sendable(a) && Sendable(b)
    requires Put(a) <= Put(b)
    ensures a == b
  {
    var rest := Put(b)[|Put(a)|..];
    assert Put(b) == Put(a) + rest;
    GetPut(PROTOCOL_VERSION, a, rest);
    GetPut(PROTOCOL_VERSION, b, []);
    assert Put(b) + [] == Put(b);
  }
}
