/**
 Upstream endpoints: the server token grammar, the settings applied to a resolved endpoint, and how
 a lightwalletd endpoint is finally dialled.
 */
module Endpoint {
  import opened Wrappers
  import opened Characters
  import opened Decimals
  import opened Fingerprint

  datatype Network = Main | Test | Regtest

  datatype Kind = Lightwalletd | ZebraRpc

  datatype TlsRoots = Native | Webpki

  datatype TlsOptions = TlsOptions(
    forceTls: Option<bool>, roots: TlsRoots, insecureSkipVerify: bool, caPem: Option<seq<byte>>, pins: seq<Digest>)

  datatype Auth = Auth(user: Option<string>, password: Option<string>, cookie: Option<string>)

  datatype Policy = Policy(rfc1918IsLocal: bool, allowRemoteCleartext: bool)

  const DEFAULT_TLS := TlsOptions(None, Native, false, None, [])
  const NO_AUTH := Auth(None, None, None)
  const DEFAULT_POLICY := Policy(true, false)

  datatype Upstream = Upstream(
    host: string, port: nat, kind: Kind, tls: TlsOptions, auth: Auth, policy: Policy, assumeTransparent: bool,
    proxy: Option<string>)

  function NewUpstream(host: string, port: nat, kind: Kind): Upstream {
    Upstream(host, port, kind, DEFAULT_TLS, NO_AUTH, DEFAULT_POLICY, false, None)
  }

  // ---- The token grammar -------------------------------------------------------------------

  function StripPrefix(s: string, prefix: string): Option<string> {
    if prefix <= s then Some(s[|prefix|..]) else None
  }

  function TrimSlashes(s: string): string {
    if s != "" && s[|s| - 1] == '/' then TrimSlashes(s[..|s| - 1]) else s
  }

  /** `str::parse::<u16>` */
  function ParsePort(s: string): (r: Option<nat>)
    ensures r.Some? ==> r.value < 65536
  {
    var digits := if s != "" && s[0] == '+' then s[1..] else s;
    if digits == "" || !AllDigits(digits) || Decimal(digits) >= 65536 then None
    else
      DecimalBound(digits);
      Some(Decimal(digits))
  }

  function Scheme(token: string): (Kind, Option<bool>, string) {
    if StripPrefix(token, "zebra://").Some? then (ZebraRpc, None, token[8..])
    else if StripPrefix(token, "https://").Some? then (Lightwalletd, Some(true), token[8..])
    else if StripPrefix(token, "http://").Some? then (Lightwalletd, Some(false), token[7..])
    else (Lightwalletd, None, token)
  }

  function Resolve(token: string, network: Network): Option<Upstream> {
    if token == "zebra" then
      Some(NewUpstream("127.0.0.1", if network.Main? then 8234 else 18234, ZebraRpc))
    else if token == "zecrocks" then
      if network.Regtest? then None
      else
        var host := if network.Main? then "zec.rocks" else "testnet.zec.rocks";
        Some(NewUpstream(host, 443, Lightwalletd).(tls := DEFAULT_TLS.(forceTls := Some(true))))
    else
      var (kind, forceTls, rest) := Scheme(token);
      var rest := TrimSlashes(rest);
      var p := LastIndexOf(rest, ':');
      var host := if p < 0 then rest else rest[..p];
      var port := if p >= 0 then ParsePort(rest[p + 1..]) else if forceTls == Some(true) then Some(443) else None;
      if port.None? || host == "" then None
      else Some(NewUpstream(host, port.value, kind).(tls := DEFAULT_TLS.(forceTls := forceTls)))
  }

  /** What a scheme prefix forces. */
  function SchemeText(kind: Kind, forceTls: Option<bool>): string {
    if kind.ZebraRpc? then "zebra://" else if forceTls == Some(true) then "https://" else "http://"
  }

  lemma LastColonAt(host: string, digits: string)
    requires AllDigits(digits)
    ensures LastIndexOf(host + ":" + digits, ':') == |host|
  {
    SplitAtLast(host, ':', digits);
  }

  lemma ParsePortText(port: nat)
    requires port < 65536
    ensures ParsePort(NatText(port)) == Some(port)
  {
    hide Decimal, NatText;
    NatTextValue(port);
    assert IsDigit(NatText(port)[0]);
  }

  /** A host and port written after a scheme come back as they were written, trailing slash or not. */
  lemma ResolveWritten(kind: Kind, forceTls: Option<bool>, host: string, port: nat, slash: bool, network: Network)
    requires (kind.ZebraRpc? && forceTls.None?) || (kind.Lightwalletd? && forceTls.Some?)
    requires host != "" && port < 65536
    ensures var token := SchemeText(kind, forceTls) + (host + ":" + NatText(port) + if slash then "/" else "");
            Resolve(token, network) ==
            Some(NewUpstream(host, port, kind).(tls := DEFAULT_TLS.(forceTls := forceTls)))
  {
    hide NatText, LastIndexOf, ParsePort;
    var rest := host + ":" + NatText(port);
    var written := rest + if slash then "/" else "";
    var token := SchemeText(kind, forceTls) + written;
    SchemeRead(kind, forceTls, written);
    TrimOne(rest, slash);
    LastColonAt(host, NatText(port));
    assert rest[..|host|] == host && rest[|host| + 1..] == NatText(port);
    ParsePortText(port);
  }

  /** A bare `host:port` is a lightwalletd endpoint whose TLS mode nothing has forced. */
  lemma ResolveBare(host: string, port: nat, network: Network)
    requires host != "" && port < 65536
    requires !("zebra://" <= host + ":" + NatText(port))
    requires !("https://" <= host + ":" + NatText(port)) && !("http://" <= host + ":" + NatText(port))
    ensures Resolve(host + ":" + NatText(port), network) == Some(NewUpstream(host, port, Lightwalletd))
  {
    hide NatText, LastIndexOf, ParsePort;
    var token := host + ":" + NatText(port);
    TrimOne(token, false);
    assert token + "" == token;
    LastColonAt(host, NatText(port));
    assert token[|host|] == ':' && token[..|host|] == host && token[|host| + 1..] == NatText(port);
    ParsePortText(port);
    assert ':' in token && ':' !in "zebra" && ':' !in "zecrocks";
  }

  /** Without a port, `https://` means 443 and every other scheme is refused. */
  lemma ResolveWithoutPort(kind: Kind, forceTls: Option<bool>, host: string, network: Network)
    requires (kind.ZebraRpc? && forceTls.None?) || (kind.Lightwalletd? && forceTls.Some?)
    requires host != "" && host[|host| - 1] != '/' && ':' !in host
    ensures Resolve(SchemeText(kind, forceTls) + host, network) ==
            if forceTls == Some(true)
            then Some(NewUpstream(host, 443, kind).(tls := DEFAULT_TLS.(forceTls := forceTls))) else None
  {
    SchemeRead(kind, forceTls, host);
    TrimOne(host, false);
    assert host + "" == host;
  }

  lemma TrimOne(rest: string, slash: bool)
    requires rest != "" && rest[|rest| - 1] != '/'
    ensures TrimSlashes(rest + if slash then "/" else "") == rest
  {
    if slash {
      assert (rest + "/")[..|rest|] == rest;
    } else {
      assert rest + "" == rest;
    }
  }

  lemma SchemeRead(kind: Kind, forceTls: Option<bool>, written: string)
    requires (kind.ZebraRpc? && forceTls.None?) || (kind.Lightwalletd? && forceTls.Some?)
    ensures var token := SchemeText(kind, forceTls) + written;
            Scheme(token) == (kind, forceTls, written) && token != "zebra" && token != "zecrocks"
  {
    var prefix := SchemeText(kind, forceTls);
    var token := prefix + written;
    assert prefix <= token && token[|prefix|..] == written;
    SchemesDisjoint(token);
    if kind.ZebraRpc? {
      assert prefix == "zebra://" && Scheme(token) == (kind, forceTls, written);
    } else if forceTls == Some(true) {
      assert prefix == "https://" && Scheme(token) == (kind, forceTls, written);
    } else {
      assert forceTls == Some(forceTls.value) && !forceTls.value;
      assert prefix == "http://" && forceTls == Some(false) && Scheme(token) == (kind, forceTls, written);
    }
    assert token[|prefix| - 1] == '/' && "zecrocks"[6] != '/' && "zecrocks"[7] != '/';
  }

  // ---- The grammar, exactly ----------------------------------------------------------------

  ghost predicate AllSlashes(s: string) {
    forall i :: 0 <= i < |s| ==> s[i] == '/'
  }

  lemma {:induction false} TrimSlashesParts(s: string)
    ensures |TrimSlashes(s)| <= |s| && TrimSlashes(s) == s[..|TrimSlashes(s)|] && AllSlashes(s[|TrimSlashes(s)|..])
  {
    if s != "" && s[|s| - 1] == '/' {
      var init := s[..|s| - 1];
      TrimSlashesParts(init);
      var n := |TrimSlashes(s)|;
      assert s[n..] == init[n..] + ['/'];
    }
  }

  lemma {:induction false} TrimSlashesOff(s: string, slashes: string)
    requires AllSlashes(slashes) && s != "" && s[|s| - 1] != '/'
    ensures TrimSlashes(s + slashes) == s
    decreases |slashes|
  {
    if slashes == "" {
      assert s + slashes == s;
    } else {
      var n := |slashes| - 1;
      TrimSlashesOff(s, slashes[..n]);
      assert (s + slashes)[..|s| + n] == s + slashes[..n];
    }
  }

  /** Digits, possibly after a plus sign, for a number below 2^16. */
  ghost predicate PortText(s: string, port: nat) {
    port < 0x1_0000 && exists digits :: IsPortDigits(s, digits, port)
  }

  ghost predicate IsPortDigits(s: string, digits: string, port: nat) {
    digits != "" && AllDigits(digits) && Decimal(digits) == port && (s == digits || s == "+" + digits)
  }

  lemma ParsePortExact(s: string, port: nat)
    ensures ParsePort(s) == Some(port) <==> PortText(s, port)
  {
    hide Decimal;
    if ParsePort(s) == Some(port) {
      var digits := if s != "" && s[0] == '+' then s[1..] else s;
      assert IsPortDigits(s, digits, port);
    }
    if PortText(s, port) {
      var digits :| IsPortDigits(s, digits, port);
      assert IsDigit(digits[0]);
      assert s == "+" + digits ==> s[1..] == digits;
    }
  }

  lemma PortTextPlain(s: string, port: nat)
    requires PortText(s, port)
    ensures s != "" && ':' !in s && s[|s| - 1] != '/'
  {
    var digits :| IsPortDigits(s, digits, port);
    assert forall c :: c in s ==> c in digits || c == '+';
    assert IsDigit(digits[|digits| - 1]) && s[|s| - 1] == digits[|digits| - 1];
  }

  /** `host:port` and any slashes. */
  ghost predicate WithPort(rest: string, host: string, port: nat) {
    exists text, slashes :: rest == host + ":" + text + slashes && PortText(text, port) && AllSlashes(slashes)
  }

  /** `host` and any slashes. */
  ghost predicate WithoutPort(rest: string, host: string) {
    && ':' !in host && (host == "" || host[|host| - 1] != '/')
    && exists slashes :: rest == host + slashes && AllSlashes(slashes)
  }

  /** What a token with this scheme resolves to, if it names this host and port. */
  function Named(token: string, host: string, port: nat): Upstream {
    NewUpstream(host, port, Scheme(token).0).(tls := DEFAULT_TLS.(forceTls := Scheme(token).1))
  }

  /**
   A token resolves to a host and port exactly when, after its scheme, it spells them: the port
   below 2^16 in digits, any number of slashes at the end, and no port only after `https://`.
   */
  lemma ResolveExact(token: string, network: Network, host: string, port: nat)
    requires token != "zebra" && token != "zecrocks"
    ensures Resolve(token, network) == Some(Named(token, host, port)) <==>
            && host != ""
            && (WithPort(Scheme(token).2, host, port)
                || (Scheme(token).1 == Some(true) && port == 443 && WithoutPort(Scheme(token).2, host)))
  {
    hide Scheme, ParsePort, TrimSlashes, LastIndexOf, WithPort, WithoutPort;
    var rest := Scheme(token).2;
    var trimmed := TrimSlashes(rest);
    TrimSlashesParts(rest);
    var p := LastIndexOf(trimmed, ':');
    if p >= 0 {
      SplitsAtPort(rest, trimmed, p, host, port);
    } else {
      NoPort(rest, trimmed, host, port);
    }
  }

  lemma SplitsAtPort(rest: string, trimmed: string, p: int, host: string, port: nat)
    requires trimmed == TrimSlashes(rest) && 0 <= p == LastIndexOf(trimmed, ':')
    ensures host != "" ==>
              (WithPort(rest, host, port) <==> trimmed[..p] == host && ParsePort(trimmed[p + 1..]) == Some(port))
    ensures !WithoutPort(rest, host)
  {
    hide ParsePort, TrimSlashes, LastIndexOf, PortText;
    TrimSlashesParts(rest);
    var slashes, text := rest[|trimmed|..], trimmed[p + 1..];
    ParsePortExact(text, port);
    assert rest == trimmed + slashes && trimmed == trimmed[..p] + ":" + text;
    if host == trimmed[..p] && PortText(text, port) {
      assert rest == host + ":" + text + slashes;
    }
    if host != "" && WithPort(rest, host, port) {
      UniquePort(rest, host, port);
    }
    if WithoutPort(rest, host) {
      UniqueHost(rest, host);
      assert false;
    }
  }

  lemma UniquePort(rest: string, host: string, port: nat)
    requires WithPort(rest, host, port)
    ensures var trimmed := TrimSlashes(rest);
            var p := LastIndexOf(trimmed, ':');
            p == |host| && trimmed[..p] == host && ParsePort(trimmed[p + 1..]) == Some(port)
  {
    hide ParsePort, TrimSlashes, LastIndexOf, PortText;
    var text, slashes :| rest == host + ":" + text + slashes && PortText(text, port) && AllSlashes(slashes);
    PortTextPlain(text, port);
    var trimmed := host + ":" + text;
    TrimSlashesOff(trimmed, slashes);
    SplitAtLast(host, ':', text);
    assert trimmed[..|host|] == host && trimmed[|host| + 1..] == text;
    ParsePortExact(text, port);
  }

  lemma UniqueHost(rest: string, host: string)
    requires WithoutPort(rest, host)
    ensures TrimSlashes(rest) == host && LastIndexOf(TrimSlashes(rest), ':') == -1
  {
    hide TrimSlashes, LastIndexOf;
    var slashes :| rest == host + slashes && AllSlashes(slashes);
    if host != "" {
      TrimSlashesOff(host, slashes);
    } else {
      assert rest == slashes;
      OnlySlashes(slashes);
    }
  }

  lemma {:induction false} OnlySlashes(s: string)
    requires AllSlashes(s)
    ensures TrimSlashes(s) == ""
  {
    if s != "" {
      OnlySlashes(s[..|s| - 1]);
    }
  }

  lemma NoPort(rest: string, trimmed: string, host: string, port: nat)
    requires trimmed == TrimSlashes(rest) && LastIndexOf(trimmed, ':') == -1
    ensures !WithPort(rest, host, port)
    ensures WithoutPort(rest, host) <==> trimmed == host
  {
    hide ParsePort, TrimSlashes, LastIndexOf, PortText;
    if WithPort(rest, host, port) {
      UniquePort(rest, host, port);
      assert false;
    }
    TrimSlashesParts(rest);
    TrimmedEnd(rest);
    if trimmed == host {
      assert rest == host + rest[|host|..];
    }
    if WithoutPort(rest, host) {
      UniqueHost(rest, host);
    }
  }

  lemma {:induction false} TrimmedEnd(s: string)
    ensures TrimSlashes(s) == "" || TrimSlashes(s)[|TrimSlashes(s)| - 1] != '/'
  {
    if s != "" && s[|s| - 1] == '/' {
      TrimmedEnd(s[..|s| - 1]);
    }
  }

  /** The two presets, on every network. */
  lemma Presets(network: Network)
    ensures var plain := TlsOptions(None, Native, false, None, []);
            var auth, policy := Auth(None, None, None), Policy(true, false);
            && Resolve("zebra", network) ==
               Some(Upstream("127.0.0.1", if network == Main then 8234 else 18234, ZebraRpc, plain, auth, policy, false,
                             None))
            && Resolve("zecrocks", network) ==
               if network == Regtest then None
               else Some(Upstream(if network == Main then "zec.rocks" else "testnet.zec.rocks", 443, Lightwalletd,
                                  plain.(forceTls := Some(true)), auth, policy, false, None))
  {
    hide Scheme;
    assert "zebra"[2] != "zecrocks"[2];
  }

  // ---- Applying settings -------------------------------------------------------------------

  datatype Setting =
    | ZebraAuth(auth: Auth)
    | CleartextPolicy(policy: Policy)
    | Tls(tls: TlsOptions)
    | TransparentOverride(on: bool)
    | Proxy(proxy: Option<string>)

  /** The forced mode already on the endpoint wins over the configured one. */
  function MergeForce(forced: Option<bool>, configured: Option<bool>): Option<bool> {
    if forced.Some? then forced else configured
  }

  function Apply(u: Upstream, s: Setting): Upstream {
    match s
    case ZebraAuth(auth) => if u.kind.ZebraRpc? then u.(auth := auth) else u
    case CleartextPolicy(policy) => u.(policy := policy)
    case Tls(tls) => u.(tls := tls.(forceTls := MergeForce(u.tls.forceTls, tls.forceTls)))
    case TransparentOverride(on) => if on && !u.kind.Lightwalletd? then u else u.(assumeTransparent := on)
    case Proxy(proxy) => u.(proxy := proxy)
  }

  function ApplyAll(u: Upstream, settings: seq<Setting>): Upstream
    decreases |settings|
  {
    if settings == [] then u else ApplyAll(Apply(u, settings[0]), settings[1..])
  }

  /** The endpoint the `apply_*` functions assign fields of. */
  class Server {
    const host: string
    const port: nat
    const kind: Kind
    var tls: TlsOptions
    var auth: Auth
    var policy: Policy
    var assumeTransparent: bool
    var proxy: Option<string>

    constructor (u: Upstream)
      ensures View() == u
    {
      host, port, kind := u.host, u.port, u.kind;
      tls, auth, policy, assumeTransparent, proxy := u.tls, u.auth, u.policy, u.assumeTransparent, u.proxy;
    }

    ghost function View(): Upstream
      reads this
    {
      Upstream(host, port, kind, tls, auth, policy, assumeTransparent, proxy)
    }

    method ApplyZebraAuth(auth: Auth)
      modifies this
      ensures View() == Apply(old(View()), ZebraAuth(auth))
      ensures View() == old(View()).(auth := if kind == ZebraRpc then auth else old(this.auth))
    {
      if kind == ZebraRpc {
        this.auth := auth;
      }
    }

    method ApplyCleartextPolicy(policy: Policy)
      modifies this
      ensures View() == Apply(old(View()), CleartextPolicy(policy))
      ensures View() == old(View()).(policy := policy)
    {
      this.policy := policy;
    }

    method ApplyTls(opts: TlsOptions)
      modifies this
      ensures View() == Apply(old(View()), Tls(opts))
      ensures View() == old(View()).(tls := tls) && tls == opts.(forceTls := tls.forceTls)
      ensures tls.forceTls == if old(tls.forceTls) == None then opts.forceTls else old(tls.forceTls)
    {
      var schemeForced := tls.forceTls;
      tls := opts;
      if schemeForced.Some? {
        tls := tls.(forceTls := schemeForced);
      }
    }

    method ApplyTransparentOverride(on: bool)
      modifies this
      ensures View() == Apply(old(View()), TransparentOverride(on))
      ensures View() == old(View()).(assumeTransparent := assumeTransparent)
      ensures assumeTransparent == if on && kind == ZebraRpc then old(assumeTransparent) else on
    {
      if on && kind != Lightwalletd {
        return;
      }
      assumeTransparent := on;
    }

    method ApplyProxy(proxy: Option<string>)
      modifies this
      ensures View() == Apply(old(View()), Proxy(proxy))
      ensures View() == old(View()).(proxy := proxy)
    {
      this.proxy := proxy;
    }
  }

  /** The first mode anyone forced: the scheme's, or else the first configured one. */
  function FirstForced(forced: Option<bool>, settings: seq<Setting>): Option<bool>
    decreases |settings|
  {
    if settings == [] || forced.Some? then forced
    else FirstForced(if settings[0].Tls? then settings[0].tls.forceTls else None, settings[1..])
  }

  /**
   Any settings in any order: the endpoint stays the one the token named, its forced TLS mode is
   the first that was set, and zebra credentials never reach a lightwalletd endpoint.
   */
  lemma {:induction false} ApplyAllKeeps(u: Upstream, settings: seq<Setting>)
    ensures var v := ApplyAll(u, settings);
            && v.kind == u.kind && v.host == u.host && v.port == u.port
            && v.tls.forceTls == FirstForced(u.tls.forceTls, settings)
            && (u.kind.Lightwalletd? ==> v.auth == u.auth)
            && (u.kind.ZebraRpc? ==> (v.assumeTransparent ==> u.assumeTransparent))
    decreases |settings|
  {
    if settings != [] {
      ApplyAllKeeps(Apply(u, settings[0]), settings[1..]);
      if u.tls.forceTls.Some? {
        ForcedStays(u.tls.forceTls, settings[1..]);
      }
    }
  }

  lemma ForcedStays(forced: Option<bool>, settings: seq<Setting>)
    requires forced.Some?
    ensures FirstForced(forced, settings) == forced
  {
  }

  /** From the token to the dial: what the scheme says cannot be configured away. */
  lemma SchemeSurvives(token: string, network: Network, settings: seq<Setting>)
    requires Resolve(token, network).Some?
    ensures var v := ApplyAll(Resolve(token, network).value, settings);
            && (v.kind.Lightwalletd? ==> v.auth == NO_AUTH)
            && (v.kind.ZebraRpc? <==> token == "zebra" || StripPrefix(token, "zebra://").Some?)
            && (token == "zecrocks" || StripPrefix(token, "https://").Some? ==> v.tls.forceTls == Some(true))
            && (StripPrefix(token, "http://").Some? ==> v.tls.forceTls == Some(false))
            && v.host != "" && v.port < 65536
  {
    hide Resolve, StripPrefix, FirstForced, ApplyAll;
    var u := Resolve(token, network).value;
    Resolved(token, network);
    ApplyAllKeeps(u, settings);
    if u.tls.forceTls.Some? {
      ForcedStays(u.tls.forceTls, settings);
    }
  }

  /** What a token alone decides. */
  lemma Resolved(token: string, network: Network)
    requires Resolve(token, network).Some?
    ensures var u := Resolve(token, network).value;
            && u.auth == NO_AUTH && u.host != "" && u.port < 65536
            && (u.kind.ZebraRpc? <==> token == "zebra" || StripPrefix(token, "zebra://").Some?)
            && (token == "zecrocks" || StripPrefix(token, "https://").Some? ==> u.tls.forceTls == Some(true))
            && (StripPrefix(token, "http://").Some? ==> u.tls.forceTls == Some(false))
  {
    hide Resolve, StripPrefix, Scheme;
    if token == "zebra" || token == "zecrocks" {
      ShortcutResolved(token, network);
      NoScheme(token);
    } else {
      TokenResolved(token, network);
      SchemeFacts(token);
    }
  }

  lemma ShortcutResolved(token: string, network: Network)
    requires (token == "zebra" || token == "zecrocks") && Resolve(token, network).Some?
    ensures var u := Resolve(token, network).value;
            && u.auth == NO_AUTH && u.host != "" && u.port < 65536 && (u.kind.ZebraRpc? <==> token == "zebra")
            && (token == "zecrocks" ==> u.tls.forceTls == Some(true))
  {
    hide Scheme;
    assert "zebra"[2] != "zecrocks"[2];
  }

  lemma NoScheme(token: string)
    requires token == "zebra" || token == "zecrocks"
    ensures StripPrefix(token, "zebra://").None? && StripPrefix(token, "https://").None?
            && StripPrefix(token, "http://").None?
  {
    SchemesDisjoint(token);
    assert token[0] == 'z';
    assert token == "zecrocks" ==> token[5] == 'c';
  }

  lemma TokenResolved(token: string, network: Network)
    requires token != "zebra" && token != "zecrocks" && Resolve(token, network).Some?
    ensures var u := Resolve(token, network).value;
            && u.auth == NO_AUTH && u.host != "" && u.port < 65536
            && u.kind == Scheme(token).0 && u.tls.forceTls == Scheme(token).1
  {
    hide Scheme, ParsePort, TrimSlashes, LastIndexOf;
  }

  lemma SchemeFacts(token: string)
    ensures Scheme(token).0.ZebraRpc? <==> StripPrefix(token, "zebra://").Some?
    ensures StripPrefix(token, "https://").Some? ==> Scheme(token).1 == Some(true)
    ensures StripPrefix(token, "http://").Some? ==> Scheme(token).1 == Some(false)
  {
    SchemesDisjoint(token);
  }

  lemma SchemesDisjoint(token: string)
    ensures StripPrefix(token, "https://").Some? ==> StripPrefix(token, "zebra://").None? && token[0] == 'h'
    ensures StripPrefix(token, "http://").Some? ==>
              StripPrefix(token, "zebra://").None? && StripPrefix(token, "https://").None? && token[0] == 'h'
    ensures StripPrefix(token, "zebra://").Some? ==> token[5] == ':'
  {
    if StripPrefix(token, "https://").Some? {
      assert token[4] == "https://"[4];
      assert token[0] == "https://"[0];
    }
    if StripPrefix(token, "http://").Some? {
      assert token[4] == "http://"[4];
      assert token[0] == "http://"[0];
    }
    if StripPrefix(token, "zebra://").Some? {
      assert token[0] == "zebra://"[0];
      assert token[5] == "zebra://"[5];
    }
  }

  // ---- Backend settings and their validation -----------------------------------------------

  datatype Backend = Backend(
    server: string, tls: Option<bool>, roots: TlsRoots, insecureSkipVerify: bool, caPem: Option<seq<byte>>,
    caFile: Option<string>, pins: seq<Digest>, assumeTransparent: bool, policy: Policy, proxy: Option<string>)

  datatype Override = Override(
    server: Option<string>, tls: Option<Option<bool>>, roots: Option<TlsRoots>, insecureSkipVerify: Option<bool>,
    caPem: Option<seq<byte>>, caFile: Option<string>, pins: Option<seq<Digest>>, assumeTransparent: Option<bool>)

  function Or<T>(o: Option<T>, default: T): T {
    if o.Some? then o.value else default
  }

  predicate IsEmpty(o: Override) {
    o.server.None? && o.tls.None? && o.roots.None? && o.insecureSkipVerify.None? && o.caPem.None? && o.pins.None?
    && o.assumeTransparent.None?
  }

  function Effective(o: Override, global: Backend): Backend {
    Backend(
      Or(o.server, global.server), Or(o.tls, global.tls), Or(o.roots, global.roots),
      Or(o.insecureSkipVerify, global.insecureSkipVerify), if o.caPem.Some? then o.caPem else global.caPem,
      if o.caFile.Some? then o.caFile else global.caFile, Or(o.pins, global.pins),
      Or(o.assumeTransparent, global.assumeTransparent), global.policy, global.proxy)
  }

  const NO_OVERRIDE := Override(None, None, None, None, None, None, None, None)

  function FullOverride(b: Backend): Override {
    Override(Some(b.server), Some(b.tls), Some(b.roots), Some(b.insecureSkipVerify), b.caPem, b.caFile, Some(b.pins),
             Some(b.assumeTransparent))
  }

  /**
   A wallet that overrides nothing gets the global settings, one that overrides everything gets its
   own under the daemon's policy and proxy, and applying an override twice changes nothing more.
   */
  lemma OverrideLaws(o: Override, b: Backend, global: Backend)
    ensures Effective(NO_OVERRIDE, global) == global
    ensures b.caPem.Some? && b.caFile.Some? ==>
              Effective(FullOverride(b), global) == b.(policy := global.policy, proxy := global.proxy)
    ensures Effective(o, Effective(o, global)) == Effective(o, global)
  {
  }

  /**
   Field by field, whatever else is overridden: what a wallet does not set stays global, what it sets
   is exactly its own, and policy and proxy are the daemon's.
   */
  lemma EffectiveFields(o: Override, global: Backend)
    ensures var b := Effective(o, global);
            && b.policy == global.policy && b.proxy == global.proxy
            && (o.server.None? ==> b.server == global.server)
            && (o.tls.None? ==> b.tls == global.tls)
            && (o.roots.None? ==> b.roots == global.roots)
            && (o.insecureSkipVerify.None? ==> b.insecureSkipVerify == global.insecureSkipVerify)
            && (o.caPem.None? ==> b.caPem == global.caPem)
            && (o.caFile.None? ==> b.caFile == global.caFile)
            && (o.pins.None? ==> b.pins == global.pins)
            && (o.assumeTransparent.None? ==> b.assumeTransparent == global.assumeTransparent)
    ensures var b := Effective(o, global);
            && (forall x :: o.server == Some(x) ==> b.server == x)
            && (forall x :: o.tls == Some(x) ==> b.tls == x)
            && (forall x :: o.roots == Some(x) ==> b.roots == x)
            && (forall x :: o.insecureSkipVerify == Some(x) ==> b.insecureSkipVerify == x)
            && (forall x :: o.caPem == Some(x) ==> b.caPem == Some(x))
            && (forall x :: o.caFile == Some(x) ==> b.caFile == Some(x))
            && (forall x :: o.pins == Some(x) ==> b.pins == x)
            && (forall x :: o.assumeTransparent == Some(x) ==> b.assumeTransparent == x)
  {
  }

  /** A field set to something other than the global value: the override shows, so it is not empty. */
  function Contrary(o: Override): Backend {
    Backend(
      if o.server == Some("") then "zebra" else "",
      if o.tls == Some(None) then Some(true) else None,
      if o.roots == Some(Native) then Webpki else Native,
      o.insecureSkipVerify == Some(false), None, None,
      if o.pins == Some([]) then [seq(32, _ => 0)] else [],
      o.assumeTransparent == Some(false), DEFAULT_POLICY, None)
  }

  /** `is_empty` is exactly: no global settings are changed by it, but for the name of a CA file. */
  lemma EmptyMeansNoEffect(o: Override)
    ensures IsEmpty(o) <==> forall global :: Effective(o, global) == global.(caFile := Effective(o, global).caFile)
  {
    if !IsEmpty(o) {
      var global := Contrary(o);
      assert Effective(o, global) != global.(caFile := Effective(o, global).caFile);
    }
  }

  predicate Authenticating(b: Backend) {
    b.caPem.Some? || b.pins != []
  }

  /** `validate_backend_tls` */
  predicate Validated(b: Backend) {
    Authenticating(b) ==>
      !b.insecureSkipVerify && b.tls != Some(false) && StripPrefix(b.server, "http://").None?
  }

  /** Settings are refused exactly when a pin or private CA meets something that would leave it unchecked. */
  lemma RefusedExactly(b: Backend)
    ensures !Validated(b) <==>
            (b.caPem.Some? || |b.pins| > 0) && (b.insecureSkipVerify || b.tls == Some(false) || "http://" <= b.server)
  {
  }

  /** Checking the global settings and every wallet that overrides something covers every wallet. */
  lemma EveryWalletValidated(global: Backend, o: Override)
    requires Validated(global) && (!IsEmpty(o) ==> Validated(Effective(o, global)))
    ensures Validated(Effective(o, global))
  {
  }

  function WalletSettings(b: Backend, auth: Auth): seq<Setting> {
    [ZebraAuth(auth), CleartextPolicy(b.policy), Tls(TlsOptions(b.tls, b.roots, b.insecureSkipVerify, b.caPem, b.pins)),
     TransparentOverride(b.assumeTransparent), Proxy(b.proxy)]
  }

  /** `resolve_for_wallet` */
  function ResolveForWallet(b: Backend, auth: Auth, network: Network): Option<Upstream> {
    match Resolve(b.server, network)
    case None => None
    case Some(u) => Some(ApplyAll(u, WalletSettings(b, auth)))
  }

  // ---- Dialling ----------------------------------------------------------------------------

  /** `host_is_local` is a parameter: a test of the host name alone. */
  predicate UseTls(u: Upstream, local: (string, bool) -> bool) {
    Or(u.tls.forceTls, !local(u.host, true))
  }

  predicate PlaintextAllowed(u: Upstream, local: (string, bool) -> bool) {
    && u.tls.caPem.None? && u.tls.pins == []
    && (local(u.host, u.policy.rfc1918IsLocal) || u.policy.allowRemoteCleartext)
  }

  /** `preflight` for a lightwalletd endpoint. */
  predicate Preflight(u: Upstream, local: (string, bool) -> bool) {
    UseTls(u, local) || PlaintextAllowed(u, local)
  }

  datatype Arm = Plaintext | Pinned | RootVerified | Unverified

  /** The arm `connect_lwd` takes. */
  function DialArm(u: Upstream, local: (string, bool) -> bool): Arm {
    if !UseTls(u, local) then Plaintext
    else if u.tls.pins != [] then Pinned
    else if !u.tls.insecureSkipVerify then RootVerified
    else Unverified
  }

  lemma {:induction false} WalletTls(u: Upstream, b: Backend, auth: Auth)
    ensures var v := ApplyAll(u, WalletSettings(b, auth));
            && v.tls == TlsOptions(MergeForce(u.tls.forceTls, b.tls), b.roots, b.insecureSkipVerify, b.caPem, b.pins)
            && v.policy == b.policy && v.host == u.host && v.kind == u.kind && v.proxy == b.proxy
            && v.auth == (if u.kind.ZebraRpc? then auth else u.auth)
            && (u.kind.Lightwalletd? ==> v.assumeTransparent == b.assumeTransparent)
  {
    var ss := WalletSettings(b, auth);
    var u1 := Apply(u, ss[0]);
    var u2 := Apply(u1, ss[1]);
    var u3 := Apply(u2, ss[2]);
    var u4 := Apply(u3, ss[3]);
    var u5 := Apply(u4, ss[4]);
    assert ss[1..][0] == ss[1] && ss[1..][1..] == ss[2..];
    assert ss[2..][0] == ss[2] && ss[2..][1..] == ss[3..];
    assert ss[3..][0] == ss[3] && ss[3..][1..] == ss[4..];
    assert ss[4..][0] == ss[4] && ss[4..][1..] == [];
    assert ApplyAll(u, ss) == ApplyAll(u1, ss[1..]) == ApplyAll(u2, ss[2..]);
    assert ApplyAll(u2, ss[2..]) == ApplyAll(u3, ss[3..]) == ApplyAll(u4, ss[4..]);
    assert ApplyAll(u4, ss[4..]) == u5;
  }

  /**
   How a wallet's lightwalletd endpoint is dialled, from its settings alone.  The scheme decides on
   TLS, then the setting, then whether the host is local; plaintext is dialled only without pins and
   private CA, to a host the policy calls local or with cleartext allowed.
   */
  lemma WalletDial(b: Backend, auth: Auth, network: Network, local: (string, bool) -> bool)
    requires ResolveForWallet(b, auth, network).Some?
    ensures var token := Resolve(b.server, network).value;
            var u := ResolveForWallet(b, auth, network).value;
            var tls := if token.tls.forceTls.Some? then token.tls.forceTls.value
                       else if b.tls.Some? then b.tls.value else !local(token.host, true);
            var plaintextOk := b.caPem.None? && b.pins == []
                               && (local(token.host, b.policy.rfc1918IsLocal) || b.policy.allowRemoteCleartext);
            && (Preflight(u, local) <==> tls || plaintextOk)
            && (DialArm(u, local).Plaintext? <==> !tls)
            && (DialArm(u, local).Pinned? <==> tls && b.pins != [])
            && (DialArm(u, local).RootVerified? <==> tls && b.pins == [] && !b.insecureSkipVerify)
            && (DialArm(u, local).Unverified? <==> tls && b.pins == [] && b.insecureSkipVerify)
            && u.tls.pins == b.pins && u.tls.caPem == b.caPem && u.tls.roots == b.roots
  {
    hide Resolve, ApplyAll, WalletSettings;
    WalletTls(Resolve(b.server, network).value, b, auth);
  }

  /**
   A wallet whose effective settings name a pin or a private CA, and were accepted at load, either
   fails its preflight or dials TLS and verifies the peer: its pins if it has any, a root store
   otherwise.  The unverified arm is reached only by settings that authenticate nothing.
   */
  lemma AuthenticatedDial(global: Backend, o: Override, auth: Auth, network: Network, local: (string, bool) -> bool)
    requires Validated(global) && (!IsEmpty(o) ==> Validated(Effective(o, global)))
    requires ResolveForWallet(Effective(o, global), auth, network).Some?
    ensures var b := Effective(o, global);
            var u := ResolveForWallet(b, auth, network).value;
            u.kind.Lightwalletd? && Preflight(u, local) ==>
              && (Authenticating(b) ==> DialArm(u, local) == (if b.pins != [] then Pinned else RootVerified))
              && (DialArm(u, local).Unverified? ==> b.insecureSkipVerify && !Authenticating(b))
              && (DialArm(u, local).Plaintext? ==> !Authenticating(b))
  {
    hide Resolve, ApplyAll, WalletSettings;
    var b := Effective(o, global);
    EveryWalletValidated(global, o);
    WalletTls(Resolve(b.server, network).value, b, auth);
  }

  /** A wallet that overrides only its server keeps the global pins and dials the pinned arm. */
  lemma ServerOverrideKeepsPins(global: Backend, server: string, auth: Auth, network: Network,
                                local: (string, bool) -> bool)
    requires global.pins != [] && Validated(global)
    requires var b := Effective(NO_OVERRIDE.(server := Some(server)), global);
             Validated(b) && ResolveForWallet(b, auth, network).Some?
    ensures var b := Effective(NO_OVERRIDE.(server := Some(server)), global);
            var u := ResolveForWallet(b, auth, network).value;
            b == global.(server := server)
            && (u.kind.Lightwalletd? && Preflight(u, local) ==> DialArm(u, local).Pinned? && u.tls.pins == global.pins)
  {
    hide ResolveForWallet, Preflight, DialArm, Validated;
    var o := NO_OVERRIDE.(server := Some(server));
    AuthenticatedDial(global, o, auth, network, local);
    WalletDial(Effective(o, global), auth, network, local);
  }
}
