/** What an Open leaves behind for later attaches: the namespace of its host name, and the token of
    its properties or of its connection string. */
module AmqpLogin {
  import opened Outcomes
  import opened ByteStrings
  import opened Text
  import opened Tables
  import ServiceBus
  import opened AmqpEncoder
  import opened AmqpParser
  import opened AmqpFraming
  import opened AmqpSession
  import opened AmqpAttach

  // -------------------------------- Properties --------------------------------

  /** The Open has the connection property `key`, with this value. */
  ghost predicate HasProp(fields: seq<Value>, key: string, v: Bytes) {
    4 < |fields| && fields[4].Dict? && Ascii(key) in fields[4].m && fields[4].m[Ascii(key)] == v
  }

  ghost predicate Lacks(fields: seq<Value>, key: string) {
    forall v :: !HasProp(fields, key, v)
  }

  lemma {:induction false} LookupIff(fields: seq<Value>, key: string)
    ensures Lookup(FieldDict(fields, 4), Ascii(key)).None? <==> Lacks(fields, key)
    ensures forall v :: HasProp(fields, key, v) <==> Lookup(FieldDict(fields, 4), Ascii(key)) == Some(v)
  {
    if Lacks(fields, key) && 4 < |fields| && fields[4].Dict? && Ascii(key) in fields[4].m {
      assert HasProp(fields, key, fields[4].m[Ascii(key)]);
    }
  }

  lemma {:induction false} OpenIs(env: Env, c: Conn, t: Table<ServiceBus.Message>, f: Frame, fields: seq<Value>,
      now: int)
    requires c.delivering.None? && IsFrame(f, 0x10, fields)
    ensures FrameEffect(env, c, t, f, now)
         == Answer(c.(login := Opened(env, c.login, fields, now)), t, f.channel, 0x10, OPEN_FIELDS)
  {
    hide ParseDescribedList, Opened;
  }

  /** A signature among the properties is the token, whatever else the Open carries. */
  lemma {:induction false} SignatureIsTheToken(env: Env, c: Conn, t: Table<ServiceBus.Message>, f: Frame,
      fields: seq<Value>, v: Bytes, now: int)
    requires c.delivering.None? && IsFrame(f, 0x10, fields) && HasProp(fields, "SharedAccessSignature", v) && v != []
    ensures FrameEffect(env, c, t, f, now).conn.login.sasToken == v
  {
    OpenIs(env, c, t, f, fields, now);
    LookupIff(fields, "SharedAccessSignature");
    hide FrameEffect, HasProp, Lacks, FieldDict, Lookup, ApplyConnectionString, TrimSBHost, Ascii;
  }

  /** Without one, and without a connection string, a token from an earlier Open stays, and a
      "sas-token" is taken only when there is none. */
  lemma {:induction false} TokenFillsTheGap(env: Env, c: Conn, t: Table<ServiceBus.Message>, f: Frame,
      fields: seq<Value>, now: int)
    requires c.delivering.None? && IsFrame(f, 0x10, fields)
    requires Lacks(fields, "connection-string") && Lacks(fields, "SharedAccessSignature")
    ensures var token := FrameEffect(env, c, t, f, now).conn.login.sasToken;
            && (c.login.sasToken != [] || Lacks(fields, "sas-token") ==> token == c.login.sasToken)
            && (c.login.sasToken == [] && !Lacks(fields, "sas-token") ==> HasProp(fields, "sas-token", token))
  {
    OpenIs(env, c, t, f, fields, now);
    LookupIff(fields, "connection-string");
    LookupIff(fields, "SharedAccessSignature");
    LookupIff(fields, "sas-token");
    hide FrameEffect, HasProp, Lacks, FieldDict, Lookup, ApplyConnectionString, TrimSBHost, Ascii;
  }

  // --------------------------------- Host names ---------------------------------

  const DOT: byte := 46
  const COLON: byte := 58

  /** `host` is a name, and what follows it: nothing, a domain, or a port. */
  ghost predicate HostOf(host: Bytes, name: Bytes) {
    && name != [] && DOT !in name && COLON !in name
    && exists rest: Bytes :: host == name + rest && (rest == [] || rest[0] == DOT || (rest[0] == COLON && DOT !in rest))
  }

  lemma {:induction false} HostNameIs(host: Bytes, name: Bytes)
    requires HostOf(host, name)
    ensures HostName(host) == name
  {
    var rest: Bytes :| host == name + rest && (rest == [] || rest[0] == DOT || (rest[0] == COLON && DOT !in rest));
    if rest != [] {
      assert host == name + [rest[0]] + rest[1..];
      FirstIndex(name, rest[0], rest[1..]);
    }
  }

  ghost predicate Blank(s: Bytes) {
    forall i :: 0 <= i < |s| ==> IsSpaceByte(s[i])
  }

  lemma {:induction false} TrimmedBytes(before: Bytes, core: Bytes, after: Bytes)
    requires Blank(before) && Blank(after)
    requires core != [] && !IsSpaceByte(core[0]) && !IsSpaceByte(core[|core| - 1])
    ensures TrimBytes(before + core + after) == core
  {
    assert before + core + after == before + (core + after);
    LeftDropped(before, core + after, IsSpaceByte);
    RightDropped(core, after, IsSpaceByte);
  }

  /** A prefix that a host does not begin with, it does not begin with when a slash is added. */
  lemma {:induction false} SchemeOff(scheme: Bytes, want: Bytes, host: Bytes, slash: Bytes)
    requires want != [] && want[|want| - 1] == SLASH && !(want <= host) && (scheme == [] || scheme == want)
    requires host != [] && host[|host| - 1] != SLASH && (slash == [] || slash == [SLASH])
    requires |want| >= 2 && want[|want| - 2] == SLASH
    ensures TrimPrefix(scheme + host + slash, want) == host + slash
  {
    if scheme == [] {
      assert scheme + host + slash == host + slash;
    } else {
      assert scheme + host + slash == scheme + (host + slash);
    }
  }

  lemma {:induction false} SlashOff(host: Bytes, slash: Bytes)
    requires (host == [] || host[|host| - 1] != SLASH) && (slash == [] || slash == [SLASH])
    ensures TrimSuffix(host + slash, [SLASH]) == host
  {
    if slash == [] {
      assert host + slash == host;
    } else {
      assert (host + slash)[|host|..] == slash;
    }
  }

  lemma {:induction false} NoBlankEnds(scheme: Bytes, host: Bytes, slash: Bytes)
    requires host != [] && !IsSpaceByte(host[0]) && !IsSpaceByte(host[|host| - 1])
    requires (scheme == [] || scheme == Ascii("sb://")) && (slash == [] || slash == [SLASH])
    ensures var core := scheme + host + slash;
            core != [] && !IsSpaceByte(core[0]) && !IsSpaceByte(core[|core| - 1])
  {
    var core := scheme + host + slash;
    assert core[0] == if scheme == [] then host[0] else scheme[0];
    assert core[|core| - 1] == if slash == [] then host[|host| - 1] else SLASH;
  }

  /** A host name with whatever blanks, scheme, domain, port or final slash. */
  lemma {:induction false} HostNamesIt(before: Bytes, scheme: Bytes, host: Bytes, slash: Bytes, after: Bytes,
      name: Bytes)
    requires HostOf(host, name) && !(Ascii("sb://") <= host) && host[|host| - 1] != SLASH
    requires Blank(before) && Blank(after) && !IsSpaceByte(host[0]) && !IsSpaceByte(host[|host| - 1])
    requires (scheme == [] || scheme == Ascii("sb://")) && (slash == [] || slash == [SLASH])
    ensures TrimSBHost(before + (scheme + host + slash) + after) == name
  {
    hide TrimBytes, TrimPrefix, TrimSuffix, HostName, Blank, IsSpaceByte;
    NoBlankEnds(scheme, host, slash);
    TrimmedBytes(before, scheme + host + slash, after);
    SchemeOff(scheme, Ascii("sb://"), host, slash);
    SlashOff(host, slash);
    HostNameIs(host, name);
    hide HostOf, Ascii;
  }

  /** So the host name of an Open without a connection string names the session's namespace. */
  lemma {:induction false} OpenNamesTheNamespace(env: Env, c: Conn, t: Table<ServiceBus.Message>, f: Frame,
      fields: seq<Value>, before: Bytes, scheme: Bytes, host: Bytes, slash: Bytes, after: Bytes, name: Bytes, now: int)
    requires c.delivering.None? && IsFrame(f, 0x10, fields) && Lacks(fields, "connection-string")
    requires Blank(before) && Blank(after) && HasText(fields, 1, before + (scheme + host + slash) + after)
    requires HostOf(host, name) && !(Ascii("sb://") <= host) && host[|host| - 1] != SLASH
    requires !IsSpaceByte(host[0]) && !IsSpaceByte(host[|host| - 1])
    requires (scheme == [] || scheme == Ascii("sb://")) && (slash == [] || slash == [SLASH])
    ensures FrameEffect(env, c, t, f, now).conn.login.namespace == name
  {
    OpenIs(env, c, t, f, fields, now);
    LookupIff(fields, "connection-string");
    TextIff(fields, 1, before + (scheme + host + slash) + after);
    HostNamesIt(before, scheme, host, slash, after, name);
    hide FrameEffect, HasProp, Lacks, FieldDict, Lookup, ApplyConnectionString, TrimSBHost, FieldText, Ascii;
  }

  // ----------------------------- Connection strings -----------------------------

  /** One `key=value` of a connection string. */
  datatype Setting = Setting(key: Bytes, value: Bytes)

  const SEMICOLON: byte := 59
  const EQUALS: byte := 61

  /** No separator in the key or the value; an equals sign in the value is part of it. */
  predicate Clean(s: Setting) {
    SEMICOLON !in s.key && EQUALS !in s.key && SEMICOLON !in s.value
  }

  function Part(s: Setting): Bytes {
    s.key + [EQUALS] + s.value
  }

  function Parts(settings: seq<Setting>): seq<Bytes> {
    MapSeq(settings, Part)
  }

  datatype Key = Endpoint | AccessKey | KeyName | Signature | EntityPath

  function Word(k: Key): string {
    match k
    case Endpoint => "endpoint"
    case AccessKey => "sharedaccesskey"
    case KeyName => "sharedaccesskeyname"
    case Signature => "sharedaccesssignature"
    case EntityPath => "entitypath"
  }

  /** The key is this word, in any letter case and with blanks around it. */
  predicate Names(s: Setting, k: Key) {
    MapSeq(TrimBytes(s.key), LowerByte) == Ascii(Word(k))
  }

  /** The value of the last setting with this key. */
  function Last(settings: seq<Setting>, k: Key): Option<Bytes> {
    if settings == [] then None
    else
      var s := settings[|settings| - 1];
      if Names(s, k) then Some(TrimBytes(s.value)) else Last(settings[..|settings| - 1], k)
  }

  function Or<T>(o: Option<T>, otherwise: T): T {
    if o.Some? then o.value else otherwise
  }

  /** What the settings make of what was there: each field is that of its last setting. */
  ghost function Resulting(a: Credentials, settings: seq<Setting>): Credentials {
    var names := Last(settings, Endpoint);
    Credentials(
      Login(if names.Some? then EndpointName(names.value) else a.login.namespace,
            Or(Last(settings, Signature), a.login.sasToken),
            Or(Last(settings, KeyName), a.login.sasKeyName)),
      Or(Last(settings, AccessKey), a.key),
      Or(Last(settings, KeyName), a.keyName),
      Or(Last(settings, EntityPath), a.entity))
  }

  lemma {:induction false} ApplySnoc(a: Credentials, parts: seq<Bytes>, p: Bytes)
    ensures ApplyParts(a, parts + [p]) == ApplyPart(ApplyParts(a, parts), p)
    decreases |parts|
  {
    hide ApplyPart;
    if parts == [] {
      assert [p][1..] == [];
    } else {
      assert (parts + [p])[1..] == parts[1..] + [p];
      ApplySnoc(ApplyPart(a, parts[0]), parts[1..], p);
    }
  }

  lemma {:induction false} PartSplits(s: Setting)
    requires Clean(s)
    ensures SEMICOLON !in Part(s) && IndexOf(Part(s), EQUALS) == |s.key|
    ensures Part(s)[..|s.key|] == s.key && Part(s)[|s.key| + 1..] == s.value
  {
    FirstIndex(s.key, EQUALS, s.value);
  }

  lemma {:induction false} NamesIs(s: Setting)
    ensures var k := MapSeq(TrimBytes(s.key), LowerByte);
            && (Names(s, Endpoint) <==> k == Ascii("endpoint"))
            && (Names(s, AccessKey) <==> k == Ascii("sharedaccesskey"))
            && (Names(s, KeyName) <==> k == Ascii("sharedaccesskeyname"))
            && (Names(s, Signature) <==> k == Ascii("sharedaccesssignature"))
            && (Names(s, EntityPath) <==> k == Ascii("entitypath"))
  {
    hide TrimBytes, Ascii, MapSeq;
  }

  /** A part sets the field that its key names, and no other. */
  lemma {:induction false} PartApplies(a: Credentials, s: Setting)
    requires Clean(s)
    ensures ApplyPart(a, Part(s)) ==
              var v := TrimBytes(s.value);
              if Names(s, Endpoint) then a.(login := a.login.(namespace := EndpointName(v)))
              else if Names(s, AccessKey) then a.(key := v)
              else if Names(s, KeyName) then a.(keyName := v, login := a.login.(sasKeyName := v))
              else if Names(s, Signature) then a.(login := a.login.(sasToken := v))
              else if Names(s, EntityPath) then a.(entity := v)
              else a
  {
    PartSplits(s);
    NamesIs(s);
    hide Part, IndexOf, TrimBytes, EndpointName, Ascii, MapSeq, Names;
  }

  lemma {:induction false} OneName(s: Setting, k: Key)
    requires Names(s, k)
    ensures forall other :: Names(s, other) ==> other == k
  {
    forall other | Names(s, other) ensures other == k {
      assert |Word(other)| == |Word(k)|;
    }
  }

  lemma {:induction false} LastSnoc(settings: seq<Setting>, s: Setting, k: Key)
    ensures Last(settings + [s], k) == if Names(s, k) then Some(TrimBytes(s.value)) else Last(settings, k)
  {
    assert (settings + [s])[..|settings|] == settings;
  }

  /** One more setting. */
  lemma {:induction false} OneMore(a: Credentials, settings: seq<Setting>, s: Setting)
    requires Clean(s)
    ensures Resulting(a, settings + [s]) == ApplyPart(Resulting(a, settings), Part(s))
  {
    PartApplies(Resulting(a, settings), s);
    hide ApplyPart, Part, Names, Last, TrimBytes, EndpointName, Clean;
    LastSnoc(settings, s, Endpoint);
    LastSnoc(settings, s, AccessKey);
    LastSnoc(settings, s, KeyName);
    LastSnoc(settings, s, Signature);
    LastSnoc(settings, s, EntityPath);
    if k :| Names(s, k) {
      OneName(s, k);
    }
  }

  lemma {:induction false} SettingsRead(a: Credentials, settings: seq<Setting>)
    requires forall i :: 0 <= i < |settings| ==> Clean(settings[i])
    ensures ApplyParts(a, Parts(settings)) == Resulting(a, settings)
    decreases |settings|
  {
    if settings != [] {
      var init, s := settings[..|settings| - 1], settings[|settings| - 1];
      assert settings == init + [s] && Parts(settings) == Parts(init) + [Part(s)];
      SettingsRead(a, init);
      hide Resulting, ApplyPart, Part, Parts, Clean, ApplyParts;
      ApplySnoc(a, Parts(init), Part(s));
      OneMore(a, init, s);
    }
  }

  /** A connection string of settings in any order, and any spelling of their keys: the last of each
      kind counts. With a key, a namespace and no token it signs one for an hour. */
  lemma {:induction false} ConnectionStringReads(env: Env, login: Login, settings: seq<Setting>, now: int)
    requires settings != [] && forall i :: 0 <= i < |settings| ==> Clean(settings[i])
    ensures var a := Resulting(Credentials(login, [], [], []), settings);
            ApplyConnectionString(env, login, Join(Parts(settings), SEMICOLON), now) ==
              if a.login.sasToken != [] || a.key == [] || a.login.namespace == [] then a.login
              else
                var uri := Ascii("sb://") + a.login.namespace + Ascii(".servicebus.windows.net/")
                           + TrimPrefix(a.entity, [SLASH]);
                a.login.(sasToken := env.sign(a.key, a.keyName, uri, now + HOUR))
  {
    var parts := Parts(settings);
    forall i | 0 <= i < |parts| ensures SEMICOLON !in parts[i] {
      PartSplits(settings[i]);
    }
    SplitOfJoin(parts, SEMICOLON);
    SettingsRead(Credentials(login, [], [], []), settings);
    hide Resulting, Split, Join, Parts, ApplyParts, Ascii;
  }

  /** The namespace of an endpoint, with or without one of the three schemes and a final slash. */
  lemma {:induction false} EndpointNamesTheNamespace(scheme: Bytes, host: Bytes, slash: Bytes, name: Bytes)
    requires scheme in [[], Ascii("sb://"), Ascii("amqp://"), Ascii("amqps://")] && (slash == [] || slash == [SLASH])
    requires HostOf(host, name) && host[|host| - 1] != SLASH
    requires !(Ascii("sb://") <= host) && !(Ascii("amqp://") <= host) && !(Ascii("amqps://") <= host)
    ensures EndpointName(scheme + host + slash) == name
  {
    var sb, amqp, amqps := Ascii("sb://"), Ascii("amqp://"), Ascii("amqps://");
    var v := scheme + host + slash;
    var v1 := TrimPrefix(v, sb);
    var rest := if scheme == sb then [] else scheme;
    if rest != [] {
      assert v[0] == 97 && sb[0] == 115;
    } else {
      SchemeOff(scheme, sb, host, slash);
    }
    assert v1 == rest + host + slash;
    var v2 := TrimPrefix(v1, amqp);
    if rest == amqps {
      assert v1[4] == 115 && amqp[4] == 58;
    } else {
      SchemeOff(rest, amqp, host, slash);
    }
    var rest2 := if rest == amqps then amqps else [];
    assert v2 == rest2 + host + slash;
    SchemeOff(rest2, amqps, host, slash);
    SlashOff(host, slash);
    HostNameIs(host, name);
  }
}
