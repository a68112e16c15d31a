/** permessage-deflate: the offer, the choice, the answer and its check (RFC 7692, section 7.1). */
module Negotiation {
  import opened Wrappers
  import opened Seqs

  datatype Mode = Disabled | ContextTakeover | NoContextTakeover

  datatype Options = Options(clientNoContextTakeover: bool, serverNoContextTakeover: bool)

  datatype Extension = Extension(name: string, params: seq<string>)

  datatype Verdict = Accepted(opts: Option<Options>) | Unsupported

  const DEFLATE := "permessage-deflate"
  const CLIENT_NO_TAKEOVER := "client_no_context_takeover"
  const SERVER_NO_TAKEOVER := "server_no_context_takeover"

  function Opts(mode: Mode): Options {
    Options(mode.NoContextTakeover?, mode.NoContextTakeover?)
  }

  /** The parameters that stand for options. */
  function Params(o: Options): seq<string> {
    (if o.clientNoContextTakeover then [CLIENT_NO_TAKEOVER] else [])
    + (if o.serverNoContextTakeover then [SERVER_NO_TAKEOVER] else [])
  }

  function Print(name: string, params: seq<string>): string
    decreases |params|
  {
    if params == [] then name else name + "; " + Print(params[0], params[1..])
  }

  lemma PrintOne(name: string, p: string)
    ensures Print(name, [p]) == name + "; " + p
  {
    assert [p][1..] == [];
  }

  lemma PrintTwo(name: string, p: string, q: string)
    ensures Print(name, [p, q]) == name + "; " + p + "; " + q
  {
    PrintOne(p, q);
    assert [p, q][1..] == [q];
  }

  method String(o: Options) returns (s: string)
    ensures s == Print(DEFLATE, Params(o))
  {
    PrintOne(DEFLATE, CLIENT_NO_TAKEOVER);
    PrintOne(DEFLATE, SERVER_NO_TAKEOVER);
    PrintTwo(DEFLATE, CLIENT_NO_TAKEOVER, SERVER_NO_TAKEOVER);
    s := DEFLATE;
    if o.clientNoContextTakeover {
      s := s + "; " + CLIENT_NO_TAKEOVER;
    }
    if o.serverNoContextTakeover {
      s := s + "; " + SERVER_NO_TAKEOVER;
    }
  }

  // ---- Header fields ----

  /** unicode.IsSpace. */
  predicate IsSpace(c: char) {
    || c in {' ', '\t', '\n', '\U{0B}', '\U{0C}', '\r', '\U{85}', '\U{A0}', '\U{1680}'}
    || '\U{2000}' <= c <= '\U{200A}'
    || c in {'\U{2028}', '\U{2029}', '\U{202F}', '\U{205F}', '\U{3000}'}
  }

  function TrimLeft(s: string): string {
    if s != [] && IsSpace(s[0]) then TrimLeft(s[1..]) else s
  }

  function TrimRight(s: string): string {
    if s != [] && IsSpace(s[|s| - 1]) then TrimRight(s[..|s| - 1]) else s
  }

  function TrimSpace(s: string): string {
    TrimRight(TrimLeft(s))
  }

  function Trimmed(ss: seq<string>): (r: seq<string>)
    ensures |r| == |ss| && forall i :: 0 <= i < |ss| ==> r[i] == TrimSpace(ss[i])
  {
    if ss == [] then [] else [TrimSpace(ss[0])] + Trimmed(ss[1..])
  }

  function Split(s: string, sep: char): (r: seq<string>)
    ensures |r| > 0
  {
    if s == [] then [""]
    else
      var rest := Split(s[1..], sep);
      if s[0] == sep then [""] + rest else [[s[0]] + rest[0]] + rest[1..]
  }

  /** The comma-separated tokens of all the values of a header field. */
  function Tokens(values: seq<string>): seq<string> {
    if values == [] then [] else Trimmed(Split(TrimSpace(values[0]), ',')) + Tokens(values[1..])
  }

  function ParseOne(token: string): Extension {
    var vals := Trimmed(Split(token, ';'));
    Extension(vals[0], vals[1..])
  }

  /** The extensions listed in a header field; empty tokens count for nothing. */
  function Parse(tokens: seq<string>): seq<Extension> {
    if tokens == [] then []
    else (if tokens[0] == "" then [] else [ParseOne(tokens[0])]) + Parse(tokens[1..])
  }

  /** One value's tokens. */
  method ValueTokens(v: string) returns (tokens: seq<string>)
    ensures tokens == Trimmed(Split(TrimSpace(v), ','))
  {
    var ts := Split(TrimSpace(v), ',');
    tokens := [];
    for i := 0 to |ts|
      invariant tokens == Trimmed(ts)[..i]
    {
      tokens := tokens + [TrimSpace(ts[i])];
    }
  }

  method HeaderTokens(values: seq<string>) returns (tokens: seq<string>)
    ensures tokens == Tokens(values)
  {
    tokens := [];
    assert values[0..] == values;
    for i := 0 to |values|
      invariant tokens + Tokens(values[i..]) == Tokens(values)
    {
      var ts := ValueTokens(values[i]);
      assert values[i..][1..] == values[i + 1..];
      Assoc(tokens, ts, Tokens(values[i + 1..]));
      tokens := tokens + ts;
    }
    assert tokens + [] == tokens;
  }

  /** One extension: its fields trimmed in place. */
  method ParseExtension(token: string) returns (e: Extension)
    ensures e == ParseOne(token)
  {
    hide Split, TrimSpace;
    var vals := Split(token, ';');
    ghost var was := vals;
    for k := 0 to |vals|
      invariant |vals| == |was|
      invariant forall j :: 0 <= j < |was| ==> vals[j] == if j < k then TrimSpace(was[j]) else was[j]
    {
      vals := vals[k := TrimSpace(vals[k])];
    }
    assert vals == Trimmed(was);
    e := Extension(vals[0], vals[1..]);
  }

  method WebsocketExtensions(values: seq<string>) returns (exts: seq<Extension>)
    ensures exts == Parse(Tokens(values))
  {
    hide ParseOne, Tokens, Parse;
    var tokens := HeaderTokens(values);
    exts := [];
    assert tokens[0..] == tokens;
    for i := 0 to |tokens|
      invariant exts + Parse(tokens[i..]) == Parse(tokens)
    {
      ParseStep(tokens, i);
      if tokens[i] == "" {
        continue;
      }
      var e := ParseExtension(tokens[i]);
      Assoc(exts, [e], Parse(tokens[i + 1..]));
      exts := exts + [e];
    }
    assert tokens[|tokens|..] == [] && Parse([]) == [] by { ParseNothing(); }
    assert exts + [] == exts;
  }

  lemma ParseNothing()
    ensures Parse([]) == []
  {
  }

  lemma ParseStep(tokens: seq<string>, i: nat)
    requires i < |tokens|
    ensures Parse(tokens[i..])
         == if tokens[i] == "" then Parse(tokens[i + 1..]) else [ParseOne(tokens[i])] + Parse(tokens[i + 1..])
  {
    hide ParseOne;
    assert tokens[i..][1..] == tokens[i + 1..];
    assert [] + Parse(tokens[i + 1..]) == Parse(tokens[i + 1..]);
  }

  // ---- The server's choice ----

  predicate Understood(p: string) {
    || p == CLIENT_NO_TAKEOVER || p == SERVER_NO_TAKEOVER
    || p == "client_max_window_bits" || p == "server_max_window_bits=15"
    || "client_max_window_bits=" <= p
  }

  method AcceptDeflate(ext: Extension, mode: Mode) returns (opts: Option<Options>)
    ensures opts.Some? <==> forall p :: p in ext.params ==> Understood(p)
    ensures opts.Some? ==> opts.value == Options(
      mode.NoContextTakeover? || CLIENT_NO_TAKEOVER in ext.params,
      mode.NoContextTakeover? || SERVER_NO_TAKEOVER in ext.params)
  {
    var copts := Opts(mode);
    for i := 0 to |ext.params|
      invariant forall p :: p in ext.params[..i] ==> Understood(p)
      invariant copts == Options(
        mode.NoContextTakeover? || CLIENT_NO_TAKEOVER in ext.params[..i],
        mode.NoContextTakeover? || SERVER_NO_TAKEOVER in ext.params[..i])
    {
      var p := ext.params[i];
      assert ext.params[..i + 1] == ext.params[..i] + [p];
      if p == CLIENT_NO_TAKEOVER {
        copts := copts.(clientNoContextTakeover := true);
        continue;
      } else if p == SERVER_NO_TAKEOVER {
        copts := copts.(serverNoContextTakeover := true);
        continue;
      } else if p == "client_max_window_bits" || p == "server_max_window_bits=15" {
        continue;
      }
      if "client_max_window_bits=" <= p {
        continue;
      }
      assert p in ext.params && !Understood(p);
      return None;
    }
    assert ext.params[..|ext.params|] == ext.params;
    opts := Some(copts);
  }

  /** What AcceptDeflate finds. */
  ghost function Acceptable(ext: Extension, mode: Mode): Option<Options> {
    if forall p :: p in ext.params ==> Understood(p) then
      Some(Options(mode.NoContextTakeover? || CLIENT_NO_TAKEOVER in ext.params,
                   mode.NoContextTakeover? || SERVER_NO_TAKEOVER in ext.params))
    else None
  }

  /** The first offer of the extension that can be accepted as it stands. */
  ghost predicate Chosen(exts: seq<Extension>, mode: Mode, opts: Option<Options>) {
    if mode.Disabled? then opts.None?
    else if opts.None? then
      forall i :: 0 <= i < |exts| && exts[i].name == DEFLATE ==> Acceptable(exts[i], mode).None?
    else
      exists i :: 0 <= i < |exts| && exts[i].name == DEFLATE && Acceptable(exts[i], mode) == opts
        && forall k :: 0 <= k < i && exts[k].name == DEFLATE ==> Acceptable(exts[k], mode).None?
  }

  method SelectDeflate(exts: seq<Extension>, mode: Mode) returns (opts: Option<Options>)
    ensures Chosen(exts, mode, opts)
  {
    opts := None;
    if mode == Disabled {
      return;
    }
    for i := 0 to |exts|
      invariant opts.None?
      invariant forall k :: 0 <= k < i && exts[k].name == DEFLATE ==> Acceptable(exts[k], mode).None?
    {
      if exts[i].name == DEFLATE {
        opts := AcceptDeflate(exts[i], mode);
        if opts.Some? {
          assert Acceptable(exts[i], mode) == opts;
          return;
        }
      }
    }
  }

  // ---- The client's check of the answer ----

  predicate ServerWindowBits(p: string) {
    "server_max_window_bits=" <= p
  }

  predicate Answerable(p: string) {
    p == CLIENT_NO_TAKEOVER || p == SERVER_NO_TAKEOVER || ServerWindowBits(p)
  }

  /** What the client makes of the extensions in the answer. */
  ghost function Verified(copts: Option<Options>, exts: seq<Extension>): Verdict {
    if exts == [] then Accepted(None)
    else if exts[0].name != DEFLATE || |exts| > 1 || copts.None? then Unsupported
    else if exists p :: p in exts[0].params && !Answerable(p) then Unsupported
    else Accepted(Some(Options(
      copts.value.clientNoContextTakeover || CLIENT_NO_TAKEOVER in exts[0].params,
      copts.value.serverNoContextTakeover || SERVER_NO_TAKEOVER in exts[0].params)))
  }

  method VerifyServerExtensions(copts: Option<Options>, values: seq<string>) returns (v: Verdict)
    ensures v == Verified(copts, Parse(Tokens(values)))
  {
    hide ServerWindowBits, Parse, Tokens;
    var exts := WebsocketExtensions(values);
    if |exts| == 0 {
      return Accepted(None);
    }
    var ext := exts[0];
    if ext.name != DEFLATE || |exts| > 1 || copts == None {
      return Unsupported;
    }
    var own := ApplyAnswer(copts.value, ext.params);
    if own.None? {
      return Unsupported;
    }
    v := Accepted(own);
  }

  /** The loop over the parameters of the answer. */
  method ApplyAnswer(offered: Options, params: seq<string>) returns (own: Option<Options>)
    ensures own.None? <==> exists p :: p in params && !Answerable(p)
    ensures own.Some? ==> own.value == Options(
      offered.clientNoContextTakeover || CLIENT_NO_TAKEOVER in params,
      offered.serverNoContextTakeover || SERVER_NO_TAKEOVER in params)
  {
    hide ServerWindowBits;
    var copts := offered;
    for i := 0 to |params|
      invariant forall p :: p in params[..i] ==> Answerable(p)
      invariant copts == Options(
        offered.clientNoContextTakeover || CLIENT_NO_TAKEOVER in params[..i],
        offered.serverNoContextTakeover || SERVER_NO_TAKEOVER in params[..i])
    {
      var p := params[i];
      assert params[..i + 1] == params[..i] + [p];
      if p == CLIENT_NO_TAKEOVER {
        copts := copts.(clientNoContextTakeover := true);
        continue;
      } else if p == SERVER_NO_TAKEOVER {
        copts := copts.(serverNoContextTakeover := true);
        continue;
      }
      if ServerWindowBits(p) {
        continue;
      }
      assert p in params && !Answerable(p);
      return None;
    }
    assert params[..|params|] == params;
    own := Some(copts);
  }

  // ---- What is printed is parsed ----

  /** A name or parameter that no separator or white space can hurt. */
  predicate Plain(s: string) {
    s != "" && ',' !in s && ';' !in s && !IsSpace(s[0]) && !IsSpace(s[|s| - 1])
  }

  lemma {:induction false} SplitNone(s: string, sep: char)
    requires sep !in s
    ensures Split(s, sep) == [s]
  {
    if s != [] {
      SplitNone(s[1..], sep);
      assert [s[0]] + s[1..] == s;
    }
  }

  lemma {:induction false} SplitFirst(a: string, sep: char, b: string)
    requires sep !in a
    ensures Split(a + [sep] + b, sep) == [a] + Split(b, sep)
  {
    var s := a + [sep] + b;
    if a == [] {
      assert s[1..] == b;
    } else {
      SplitFirst(a[1..], sep, b);
      assert s[1..] == a[1..] + [sep] + b;
      assert [a[0]] + a[1..] == a;
    }
  }

  lemma TrimPlain(s: string)
    requires Plain(s)
    ensures TrimSpace(s) == s && TrimSpace(" " + s) == s
  {
    assert (" " + s)[1..] == s;
    assert TrimLeft(s) == s;
  }

  lemma {:induction false} PrintClean(name: string, params: seq<string>)
    requires Plain(name) && forall i :: 0 <= i < |params| ==> Plain(params[i])
    ensures
      var s := Print(name, params);
      s != "" && ',' !in s && !IsSpace(s[0]) && !IsSpace(s[|s| - 1])
    decreases |params|
  {
    if params != [] {
      PrintClean(params[0], params[1..]);
    }
  }

  /** The fields of a printed extension, behind white space or not. */
  lemma {:induction false} PrintFields(lead: string, name: string, params: seq<string>)
    requires lead in {"", " "} && Plain(name) && forall i :: 0 <= i < |params| ==> Plain(params[i])
    ensures Trimmed(Split(lead + Print(name, params), ';')) == [name] + params
    decreases |params|
  {
    var first := lead + name;
    FieldTrims(lead, name);
    hide Plain, TrimSpace, Split, IsSpace;
    if params == [] {
      SplitNone(first, ';');
      assert Print(name, params) == name;
      TrimmedCons(first, []);
    } else {
      var rest := " " + Print(params[0], params[1..]);
      assert lead + Print(name, params) == first + [';'] + rest;
      SplitFirst(first, ';', rest);
      PrintFields(" ", params[0], params[1..]);
      TrimmedCons(first, Split(rest, ';'));
    }
  }

  lemma TrimmedCons(s: string, rest: seq<string>)
    ensures Trimmed([s] + rest) == [TrimSpace(s)] + Trimmed(rest)
  {
    hide TrimSpace;
    assert ([s] + rest)[1..] == rest;
  }

  lemma FieldTrims(lead: string, name: string)
    requires lead in {"", " "} && Plain(name)
    ensures ';' !in lead + name && TrimSpace(lead + name) == name
  {
    TrimPlain(name);
    assert "" + name == name;
  }

  /** Parsing a printed extension gives back its name and its parameters in order. */
  lemma PrintParses(name: string, params: seq<string>)
    requires Plain(name) && forall i :: 0 <= i < |params| ==> Plain(params[i])
    ensures Parse(Tokens([Print(name, params)])) == [Extension(name, params)]
  {
    var s := Print(name, params);
    PrintClean(name, params);
    assert TrimLeft(s) == s && TrimSpace(s) == s;
    SplitNone(s, ',');
    PrintFields("", name, params);
    assert "" + s == s;
    assert Tokens([s]) == [s];
  }

  lemma NamePlain()
    ensures Plain(DEFLATE)
  {
  }

  lemma ClientParamPlain()
    ensures Plain(CLIENT_NO_TAKEOVER)
  {
  }

  lemma ServerParamPlain()
    ensures Plain(SERVER_NO_TAKEOVER)
  {
  }

  lemma ParamsPlain(o: Options)
    ensures Plain(DEFLATE) && forall i :: 0 <= i < |Params(o)| ==> Plain(Params(o)[i])
  {
    hide Plain;
    NamePlain();
    ClientParamPlain();
    ServerParamPlain();
  }

  /** Optional white space of a header field (RFC 7230, section 3.2.3). */
  predicate Blank(s: string) {
    forall i :: 0 <= i < |s| ==> s[i] == ' ' || s[i] == '\t'
  }

  lemma {:induction false} BlankRight(s: string, b: string)
    requires (s == "" || !IsSpace(s[|s| - 1])) && Blank(b)
    ensures TrimRight(s + b) == s
  {
    if b == "" {
      assert s + b == s;
    } else {
      BlankRight(s, b[..|b| - 1]);
      assert (s + b)[..|s + b| - 1] == s + b[..|b| - 1];
    }
  }

  /** Blanks before and behind a text do not count. */
  lemma {:induction false} BlanksTrimmed(a: string, s: string, b: string)
    requires Blank(a) && Blank(b) && (s == "" || (!IsSpace(s[0]) && !IsSpace(s[|s| - 1])))
    ensures TrimSpace(a + s + b) == s
  {
    if a != "" {
      BlanksTrimmed(a[1..], s, b);
      assert (a + s + b)[1..] == a[1..] + s + b;
    } else if s != "" {
      assert a + s + b == s + b;
      BlankRight(s, b);
    } else {
      assert a + s + b == b;
      OnlyBlanks(b);
    }
  }

  lemma {:induction false} OnlyBlanks(b: string)
    requires Blank(b)
    ensures TrimLeft(b) == ""
  {
    if b != "" {
      OnlyBlanks(b[1..]);
    }
  }

  // ---- Which parameters are taken ----

  /** The parameters of permessage-deflate (RFC 7692, section 7.1); a window size may have any value here. */
  datatype Term =
    | ClientNoTakeover
    | ServerNoTakeover
    | ClientWindow
    | ClientWindowOf(bits: string)
    | ServerWindowOf(bits: string)

  function Spelling(t: Term): string {
    match t
    case ClientNoTakeover => "client_no_context_takeover"
    case ServerNoTakeover => "server_no_context_takeover"
    case ClientWindow => "client_max_window_bits"
    case ClientWindowOf(bits) => "client_max_window_bits=" + bits
    case ServerWindowOf(bits) => "server_max_window_bits=" + bits
  }

  /** A parameter of an offer that this library can live with: the server's window only if it is the largest one. */
  ghost predicate OfferTerm(p: string) {
    exists t: Term :: Spelling(t) == p && (t.ServerWindowOf? ==> t.bits == "15")
  }

  /** A parameter of an answer that it can live with: the client's window is not for the server to ask for. */
  ghost predicate AnswerTerm(p: string) {
    exists t: Term :: Spelling(t) == p && !t.ClientWindow? && !t.ClientWindowOf?
  }

  lemma SpellingOf(head: string, p: string)
    ensures head <= p <==> exists bits: string :: p == head + bits
  {
    if head <= p {
      assert p == head + p[|head|..];
    }
  }

  lemma OfferTermIs(p: string)
    ensures OfferTerm(p) <==> Understood(p)
  {
    if Understood(p) {
      if p == CLIENT_NO_TAKEOVER {
        assert Spelling(ClientNoTakeover) == p;
      } else if p == SERVER_NO_TAKEOVER {
        assert Spelling(ServerNoTakeover) == p;
      } else if p == "client_max_window_bits" {
        assert Spelling(ClientWindow) == p;
      } else if p == "server_max_window_bits=15" {
        assert Spelling(ServerWindowOf("15")) == p;
      } else {
        SpellingOf("client_max_window_bits=", p);
        var bits :| p == "client_max_window_bits=" + bits;
        assert Spelling(ClientWindowOf(bits)) == p;
      }
    }
  }

  lemma AnswerTermIs(p: string)
    ensures AnswerTerm(p) <==> Answerable(p)
  {
    if Answerable(p) {
      if p == CLIENT_NO_TAKEOVER {
        assert Spelling(ClientNoTakeover) == p;
      } else if p == SERVER_NO_TAKEOVER {
        assert Spelling(ServerNoTakeover) == p;
      } else {
        SpellingOf("server_max_window_bits=", p);
        var bits :| p == "server_max_window_bits=" + bits;
        assert Spelling(ServerWindowOf(bits)) == p;
      }
    }
  }

  /** Extensions as they stand in one header field value. */
  function Line(exts: seq<Extension>): string {
    if exts == [] then ""
    else if |exts| == 1 then Print(exts[0].name, exts[0].params)
    else Print(exts[0].name, exts[0].params) + ", " + Line(exts[1..])
  }

  predicate PlainExt(e: Extension) {
    Plain(e.name) && forall i :: 0 <= i < |e.params| ==> Plain(e.params[i])
  }

  predicate AllPlain(exts: seq<Extension>) {
    forall i :: 0 <= i < |exts| ==> PlainExt(exts[i])
  }

  function Printed(exts: seq<Extension>): (ss: seq<string>)
    ensures |ss| == |exts| && forall i :: 0 <= i < |ss| ==> ss[i] == Print(exts[i].name, exts[i].params)
  {
    if exts == [] then [] else [Print(exts[0].name, exts[0].params)] + Printed(exts[1..])
  }

  lemma PrintTrims(lead: string, e: Extension)
    requires lead in {"", " "} && PlainExt(e)
    ensures
      var s := Print(e.name, e.params);
      ',' !in lead + s && TrimSpace(lead + s) == s && s != "" && !IsSpace(s[0])
  {
    PrintClean(e.name, e.params);
    var s := Print(e.name, e.params);
    hide Print;
    BlanksTrimmed(lead, s, "");
    assert lead + s + "" == lead + s;
  }

  lemma {:induction false} LineFields(lead: string, exts: seq<Extension>)
    requires lead in {"", " "} && exts != [] && AllPlain(exts)
    ensures Trimmed(Split(lead + Line(exts), ',')) == Printed(exts)
    decreases |exts|
  {
    var first := lead + Print(exts[0].name, exts[0].params);
    PrintTrims(lead, exts[0]);
    hide PlainExt, TrimSpace, Split, IsSpace, Print;
    if |exts| == 1 {
      assert exts == [exts[0]] && lead + Line(exts) == first;
      SplitNone(first, ',');
      TrimmedCons(first, []);
      assert exts[1..] == [] && Printed([]) == [] && Trimmed([]) == [];
    } else {
      var rest := " " + Line(exts[1..]);
      assert lead + Line(exts) == first + [','] + rest;
      SplitFirst(first, ',', rest);
      LineFields(" ", exts[1..]);
      TrimmedCons(first, Split(rest, ','));
    }
  }

  lemma {:induction false} LineEnds(exts: seq<Extension>)
    requires exts != [] && AllPlain(exts)
    ensures Line(exts) != "" && !IsSpace(Line(exts)[0]) && !IsSpace(Line(exts)[|Line(exts)| - 1])
    decreases |exts|
  {
    PrintClean(exts[0].name, exts[0].params);
    hide Plain, IsSpace, Print;
    if |exts| > 1 {
      LineEnds(exts[1..]);
    }
  }

  lemma {:induction false} PrintedParses(exts: seq<Extension>)
    requires AllPlain(exts)
    ensures Parse(Printed(exts)) == exts
    decreases |exts|
  {
    hide Plain, ParseOne, Print;
    if exts != [] {
      OneParses(exts[0]);
      PrintedParses(exts[1..]);
      assert Printed(exts)[1..] == Printed(exts[1..]);
    }
  }

  lemma OneParses(e: Extension)
    requires PlainExt(e)
    ensures ParseOne(Print(e.name, e.params)) == e && Print(e.name, e.params) != ""
  {
    PrintTrims("", e);
    PrintFields("", e.name, e.params);
    assert "" + Print(e.name, e.params) == Print(e.name, e.params);
  }

  /** A header field value that lists extensions is read as those extensions, in order. */
  lemma LineParses(exts: seq<Extension>)
    requires AllPlain(exts)
    ensures Parse(Tokens([Line(exts)])) == exts
  {
    hide Plain, PlainExt, Print, ParseOne;
    var s := Line(exts);
    assert [s][1..] == [];
    if exts == [] {
      EmptyLine();
    } else {
      LineEnds(exts);
      BlanksTrimmed("", s, "");
      assert "" + s + "" == s && "" + s == s;
      LineFields("", exts);
      PrintedParses(exts);
      assert Tokens([s]) == Printed(exts) + [] == Printed(exts);
    }
  }

  lemma EmptyLine()
    ensures Parse(Tokens([""])) == []
  {
    assert [""][1..] == [] && TrimSpace("") == "";
    assert Tokens([""]) == [""];
  }

  /** An offer that the server takes. */
  ghost predicate TakesOffer(e: Extension) {
    e.name == "permessage-deflate" && forall i :: 0 <= i < |e.params| ==> OfferTerm(e.params[i])
  }

  /** An answer that the client takes. */
  ghost predicate TakesAnswer(e: Extension) {
    e.name == "permessage-deflate" && forall i :: 0 <= i < |e.params| ==> AnswerTerm(e.params[i])
  }

  /** Options with what the parameters add. */
  function Joined(o: Options, params: seq<string>): Options {
    Options(o.clientNoContextTakeover || "client_no_context_takeover" in params,
            o.serverNoContextTakeover || "server_no_context_takeover" in params)
  }

  lemma OfferIs(e: Extension, mode: Mode)
    ensures TakesOffer(e) <==> e.name == DEFLATE && Acceptable(e, mode).Some?
    ensures Acceptable(e, mode).Some? ==> Acceptable(e, mode).value == Joined(Opts(mode), e.params)
  {
    hide OfferTerm, Understood;
    forall i | 0 <= i < |e.params|
      ensures OfferTerm(e.params[i]) <==> Understood(e.params[i])
    {
      OfferTermIs(e.params[i]);
    }
  }

  /**
   What the server makes of any offers as they stand in the header field: compression is used if and
   only if it is wanted and some offer can be taken, the first such offer counts, and a context is
   given up if the mode or that offer says so.
   */
  lemma OfferTaken(exts: seq<Extension>, mode: Mode, opts: Option<Options>)
    requires AllPlain(exts) && Chosen(Parse(Tokens([Line(exts)])), mode, opts)
    ensures opts.Some? <==> !mode.Disabled? && exists i :: 0 <= i < |exts| && TakesOffer(exts[i])
    ensures opts.Some? ==>
      exists i :: 0 <= i < |exts| && TakesOffer(exts[i]) && opts.value == Joined(Opts(mode), exts[i].params)
                  && forall k :: 0 <= k < i ==> !TakesOffer(exts[k])
  {
    hide *;
    LineParses(exts);
    FirstTaken(exts, mode, opts);
  }

  lemma FirstTaken(exts: seq<Extension>, mode: Mode, opts: Option<Options>)
    requires Chosen(exts, mode, opts)
    ensures opts.Some? <==> !mode.Disabled? && exists i :: 0 <= i < |exts| && TakesOffer(exts[i])
    ensures opts.Some? ==>
      exists i :: 0 <= i < |exts| && TakesOffer(exts[i]) && opts.value == Joined(Opts(mode), exts[i].params)
                  && forall k :: 0 <= k < i ==> !TakesOffer(exts[k])
  {
    hide TakesOffer, Acceptable, Joined;
    forall i | 0 <= i < |exts|
      ensures TakesOffer(exts[i]) <==> exts[i].name == DEFLATE && Acceptable(exts[i], mode).Some?
      ensures Acceptable(exts[i], mode).Some? ==> Acceptable(exts[i], mode).value == Joined(Opts(mode), exts[i].params)
    {
      OfferIs(exts[i], mode);
    }
  }

  /**
   What the client makes of any answer as it stands in the header field: nothing if there is none; and
   otherwise it has to be a single one that can be taken, to an offer that was made.
   */
  lemma AnswerTaken(offer: Option<Options>, exts: seq<Extension>)
    requires AllPlain(exts)
    ensures
      var v := Verified(offer, Parse(Tokens([Line(exts)])));
      && (v.Accepted? <==> exts == [] || (|exts| == 1 && offer.Some? && TakesAnswer(exts[0])))
      && (v.Accepted? ==> v.opts == if exts == [] then None else Some(Joined(offer.value, exts[0].params)))
  {
    hide *;
    LineParses(exts);
    OnlyTaken(offer, exts);
  }

  lemma OnlyTaken(offer: Option<Options>, exts: seq<Extension>)
    ensures
      var v := Verified(offer, exts);
      && (v.Accepted? <==> exts == [] || (|exts| == 1 && offer.Some? && TakesAnswer(exts[0])))
      && (v.Accepted? ==> v.opts == if exts == [] then None else Some(Joined(offer.value, exts[0].params)))
  {
    hide TakesAnswer, Answerable;
    if exts != [] {
      AnswerIs(exts[0]);
    }
  }

  lemma AnswerIs(e: Extension)
    ensures TakesAnswer(e) <==> e.name == DEFLATE && !exists p :: p in e.params && !Answerable(p)
  {
    hide AnswerTerm, Answerable;
    forall i | 0 <= i < |e.params|
      ensures AnswerTerm(e.params[i]) <==> Answerable(e.params[i])
    {
      AnswerTermIs(e.params[i]);
    }
  }

  lemma OneOffer(params: seq<string>, mode: Mode, opts: Option<Options>)
    requires forall i :: 0 <= i < |params| ==> Plain(params[i])
    requires !mode.Disabled? && Chosen(Parse(Tokens([Print("permessage-deflate", params)])), mode, opts)
    ensures opts.Some? <==> forall i :: 0 <= i < |params| ==> OfferTerm(params[i])
    ensures opts.Some? ==> opts.value == Joined(Opts(mode), params)
  {
    NamePlain();
    hide Plain, Parse, Tokens, Print, Chosen, OfferTerm, Joined;
    var e := Extension("permessage-deflate", params);
    assert Line([e]) == Print(e.name, e.params);
    OfferTaken([e], mode, opts);
    assert [e][0] == e;
  }

  /** Any terms that can be taken make up an offer that is. */
  lemma TermsTaken(terms: seq<Term>, params: seq<string>, mode: Mode, opts: Option<Options>)
    requires |params| == |terms|
    requires forall i :: 0 <= i < |terms| ==>
      params[i] == Spelling(terms[i]) && Plain(params[i]) && (terms[i].ServerWindowOf? ==> terms[i].bits == "15")
    requires !mode.Disabled? && Chosen(Parse(Tokens([Print("permessage-deflate", params)])), mode, opts)
    ensures opts == Some(Options(
      mode.NoContextTakeover? || ClientNoTakeover in terms, mode.NoContextTakeover? || ServerNoTakeover in terms))
  {
    NamePlain();
    hide Plain, Parse, Tokens, Print, Chosen, Line, Spelling;
    OneOffer(params, mode, opts);
    forall i | 0 <= i < |params|
      ensures OfferTerm(params[i])
    {
      assert Spelling(terms[i]) == params[i];
    }
    forall i | 0 <= i < |terms|
      ensures params[i] == "client_no_context_takeover" <==> terms[i] == ClientNoTakeover
      ensures params[i] == "server_no_context_takeover" <==> terms[i] == ServerNoTakeover
    {
      FlagsApart(terms[i]);
    }
  }

  lemma FlagsApart(t: Term)
    ensures Spelling(t) == "client_no_context_takeover" <==> t == ClientNoTakeover
    ensures Spelling(t) == "server_no_context_takeover" <==> t == ServerNoTakeover
  {
    if t.ClientWindowOf? || t.ClientWindow? {
      assert Spelling(t)[7] == 'm';
    } else if t.ServerWindowOf? {
      assert Spelling(t)[7] == 'm';
    } else {
      assert Spelling(t)[0] == if t.ClientNoTakeover? then 'c' else 's';
    }
  }

  // ---- Both ends ----

  /** What the client offers, and the header field an end sends for its options. */
  function Offer(mode: Mode): Option<Options> {
    if mode.Disabled? then None else Some(Opts(mode))
  }

  function Header(opts: Option<Options>): seq<string> {
    if opts.None? then [] else [Print(DEFLATE, Params(opts.value))]
  }

  lemma HeaderParses(opts: Option<Options>)
    ensures Parse(Tokens(Header(opts))) == if opts.None? then [] else [Extension(DEFLATE, Params(opts.value))]
  {
    if opts.Some? {
      ParamsPlain(opts.value);
      PrintParses(DEFLATE, Params(opts.value));
    }
  }

  /**
   Whatever the two modes are, offer, choice, answer and check leave both ends with the same
   options, or both with none. Compression is on when both want it, and contexts are kept when
   both want that too.
   */
  lemma EndsAgree(client: Mode, server: Mode, chosen: Option<Options>)
    requires Chosen(Parse(Tokens(Header(Offer(client)))), server, chosen)
    ensures Verified(Offer(client), Parse(Tokens(Header(chosen)))) == Accepted(chosen)
    ensures chosen.Some? <==> !client.Disabled? && !server.Disabled?
    ensures chosen.Some? ==>
      var none := client.NoContextTakeover? || server.NoContextTakeover?;
      chosen.value == Options(none, none)
  {
    hide Parse, Tokens, Print, Chosen, Verified;
    HeaderParses(Offer(client));
    HeaderParses(chosen);
    if !client.Disabled? {
      ChosenOfOne(client, server, chosen);
    } else {
      ChosenOfNone(server, chosen);
    }
    VerifiedOwn(Offer(client), chosen);
  }

  lemma ChosenOfNone(server: Mode, chosen: Option<Options>)
    requires Chosen([], server, chosen)
    ensures chosen.None?
  {
  }

  lemma ChosenOfOne(client: Mode, server: Mode, chosen: Option<Options>)
    requires !client.Disabled? && Chosen([Extension(DEFLATE, Params(Opts(client)))], server, chosen)
    ensures chosen.Some? <==> !server.Disabled?
    ensures chosen.Some? ==>
      var none := client.NoContextTakeover? || server.NoContextTakeover?;
      chosen.value == Options(none, none)
  {
    if !server.Disabled? {
      var ext := Extension(DEFLATE, Params(Opts(client)));
      assert forall p :: p in ext.params ==> Understood(p);
      assert Acceptable(ext, server).Some?;
      assert [ext][0] == ext;
    }
  }

  /** An answer that asks for at least what was offered is taken over as it is. */
  lemma VerifiedOwn(offer: Option<Options>, chosen: Option<Options>)
    requires chosen.Some? ==> offer.Some?
    requires chosen.Some? ==>
      && (offer.value.clientNoContextTakeover ==> chosen.value.clientNoContextTakeover)
      && (offer.value.serverNoContextTakeover ==> chosen.value.serverNoContextTakeover)
    ensures Verified(offer, if chosen.None? then [] else [Extension(DEFLATE, Params(chosen.value))]) == Accepted(chosen)
  {
  }

  /** Whether an end's writer keeps its compression context, and whether its reader keeps a window. */
  predicate WriterTakeover(client: bool, o: Options) {
    if client then !o.clientNoContextTakeover else !o.serverNoContextTakeover
  }

  predicate ReaderTakeover(client: bool, o: Options) {
    if client then !o.serverNoContextTakeover else !o.clientNoContextTakeover
  }

  /** Each writer finds at the other end the reader it needs, and only compresses where that is expected. */
  lemma WritersMatchReaders(client: Mode, server: Mode, atServer: Option<Options>, atClient: Option<Options>)
    requires Chosen(Parse(Tokens(Header(Offer(client)))), server, atServer)
    requires Verified(Offer(client), Parse(Tokens(Header(atServer)))) == Accepted(atClient)
    ensures atClient.Some? <==> atServer.Some?
    ensures atClient.Some? ==>
      && WriterTakeover(true, atClient.value) == ReaderTakeover(false, atServer.value)
      && WriterTakeover(false, atServer.value) == ReaderTakeover(true, atClient.value)
  {
    EndsAgree(client, server, atServer);
  }
}
