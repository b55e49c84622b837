// X2UrlParser: a character machine for scheme://[user[:password]@]host[:port]/path[?query][#fragment],
// a subset of section 3 of RFC 3986.
module UrlParser {

  predicate IsDigit(ch: char) { '0' <= ch <= '9' }

  predicate IsAlnum(ch: char) { IsDigit(ch) || 'a' <= ch <= 'z' || 'A' <= ch <= 'Z' }

  predicate IsUnreserved(ch: char) { IsAlnum(ch) || ch == '-' || ch == '.' || ch == '_' || ch == '~' }

  // atoi on digits.
  function Number(s: string): nat {
    if s == "" || !IsDigit(s[|s| - 1]) then 0
    else 10 * Number(s[..|s| - 1]) + (s[|s| - 1] as int - '0' as int)
  }

  datatype Url = Url(
    scheme: string, username: string, password: string, hostname: string, port: string,
    path: string, query: string, fragment: string, integerPort: nat)

  const NO_URL := Url("", "", "", "", "", "", "", "", 0)

  datatype State =
    | Scheme | SlashAfterScheme1 | SlashAfterScheme2 | UsernameOrHostname | Password | Hostname
    | IPV6Hostname | PortOrPassword | Port | Path | Query | Fragment

  // The machine between two characters, or stopped: invalid input, or abort().
  datatype Machine =
    | Machine(state: State, url: Url, nameOrHost: string, portOrPass: string)
    | Invalid(nameLeft: string, portLeft: string)
    | Aborted
  {
    function Fail(): Machine
      requires Machine?
    {
      Invalid(nameOrHost, portOrPass)
    }

    function Goto(s: State): Machine
      requires Machine?
    {
      this.(state := s)
    }

    // One turn of the loop.
    function Step(ch: char): Machine
      requires Machine?
    {
      match state
      case Scheme =>
        if IsAlnum(ch) || ch == '+' || ch == '-' || ch == '.' then this.(url := url.(scheme := url.scheme + [ch]))
        else if ch == ':' then Goto(SlashAfterScheme1)
        else Fail()
      case SlashAfterScheme1 =>
        if ch == '/' then Goto(SlashAfterScheme2)
        else if IsAlnum(ch) then this.(nameOrHost := [ch], state := UsernameOrHostname)
        else Fail()
      case SlashAfterScheme2 =>
        if ch == '/' then Goto(UsernameOrHostname) else Fail()
      case UsernameOrHostname =>
        if IsUnreserved(ch) || ch == '%' then this.(nameOrHost := nameOrHost + [ch])
        else if ch == ':' then Goto(PortOrPassword)
        else if ch == '@' then this.(state := Hostname, url := url.(username := nameOrHost), nameOrHost := url.username)
        else if ch == '/' then this.(state := Path, url := url.(hostname := nameOrHost), nameOrHost := url.hostname)
        else Fail()
      case Password =>
        if IsAlnum(ch) || ch == '%' then this.(url := url.(password := url.password + [ch]))
        else if ch == '@' then Goto(Hostname)
        else Fail()
      case Hostname =>
        if ch == '[' && url.hostname == "" then Goto(IPV6Hostname)
        else if IsUnreserved(ch) || ch == '%' then this.(url := url.(hostname := url.hostname + [ch]))
        else if ch == ':' then Goto(Port)
        else if ch == '/' then Goto(Path)
        else Fail()
      case IPV6Hostname => Aborted
      case PortOrPassword =>
        if IsDigit(ch) then this.(portOrPass := portOrPass + [ch])
        else if ch == '/' then
          this.(state := Path, nameOrHost := url.hostname, portOrPass := url.port,
                url := url.(hostname := nameOrHost, port := portOrPass, integerPort := Number(portOrPass) % 0x1_0000))
        else if IsAlnum(ch) || ch == '%' then
          this.(state := Password, nameOrHost := url.username, portOrPass := url.password,
                url := url.(username := nameOrHost, password := portOrPass + [ch]))
        else Fail()
      case Port =>
        if IsDigit(ch) then this.(portOrPass := portOrPass + [ch])
        else if ch == '/' then
          this.(state := Path, portOrPass := url.port,
                url := url.(port := portOrPass, integerPort := Number(portOrPass) % 0x1_0000))
        else Fail()
      case Path =>
        if ch == '#' then Goto(Fragment)
        else if ch == '?' then Goto(Query)
        else this.(url := url.(path := url.path + [ch]))
      case Query =>
        if ch == '#' then Goto(Fragment)
        else if ch == '?' then Goto(Query)
        else this.(url := url.(query := url.query + [ch]))
      case Fragment => this.(url := url.(fragment := url.fragment + [ch]))
    }
  }

  // The accumulators, which outlive a failure.
  function NameLeft(m: Machine): string {
    match m
    case Machine(_, _, name, _) => name
    case Invalid(name, _) => name
    case Aborted => ""
  }

  function PortLeft(m: Machine): string {
    match m
    case Machine(_, _, _, port) => port
    case Invalid(_, port) => port
    case Aborted => ""
  }

  const START := Machine(Scheme, NO_URL.(path := "/"), "", "")

  function Run(m: Machine, s: string): Machine
    decreases |s|
  {
    if s == "" || !m.Machine? then m else Run(m.Step(s[0]), s[1..])
  }

  datatype Outcome = Valid(url: Url) | Bad(url: Url) | Abort

  // What is left to do behind the loop: the assertion, and a host name that nothing ended.
  function Finish(m: Machine): Outcome {
    if m.Aborted? || PortLeft(m) != "" then Abort
    else
      var u := if m.Machine? then m.url else NO_URL;
      var named := if NameLeft(m) != "" then u.(hostname := NameLeft(m)) else u;
      if m.Machine? then Outcome.Valid(named) else Bad(named)
  }

  class X2UrlParser {
    var valid: bool
    var url: Url

    constructor ()
      ensures !valid && url == NO_URL
    {
      valid, url := false, NO_URL;
    }

    // parse: `returned` is false when the process aborts instead.
    method Parse(str: string) returns (returned: bool)
      modifies this
      ensures returned == !Finish(Run(START, str)).Abort?
      ensures returned ==> (if valid then Outcome.Valid(url) else Bad(url)) == Finish(Run(START, str))
    {
      var m := START;
      var i := 0;
      while i < |str| && m.Machine?
        invariant i <= |str| && Run(START, str) == Run(m, str[i..])
      {
        m := m.Step(str[i]);
        i := i + 1;
      }
      if m.Aborted? || PortLeft(m) != "" {
        return false;
      }
      valid := m.Machine?;
      url := if valid then m.url else NO_URL;
      if NameLeft(m) != "" {
        url := url.(hostname := NameLeft(m));
      }
      returned := true;
    }
  }

  // ---- Printing.

  datatype Opt = None | Some(s: string)
  {
    function OrEmpty(): string { if Some? then s else "" }
    function After(mark: char): string { if Some? then [mark] + s else "" }
  }

  datatype Components = Components(
    scheme: string, user: Opt, password: Opt, host: string, port: Opt, path: string, query: Opt, fragment: Opt)

  // Printed from the end: each part in front of what follows it.
  function PrintTail(c: Components): string {
    c.query.After('?') + c.fragment.After('#')
  }

  function PrintHost(c: Components): string {
    c.host + (c.port.After(':') + (c.path + PrintTail(c)))
  }

  function PrintLogin(c: Components): string {
    if c.user.Some? then c.user.s + (c.password.After(':') + (['@'] + PrintHost(c))) else PrintHost(c)
  }

  function Print(c: Components): string {
    c.scheme + ("://" + PrintLogin(c))
  }

  function UrlOf(c: Components): Url {
    Url(c.scheme, c.user.OrEmpty(), c.password.OrEmpty(), c.host, c.port.OrEmpty(),
        if c.path == "" then "/" else c.path, c.query.OrEmpty(), c.fragment.OrEmpty(),
        Number(c.port.OrEmpty()) % 0x1_0000)
  }

  // The characters a state simply collects.
  predicate Plain(state: State, ch: char) {
    match state
    case Scheme => IsAlnum(ch) || ch == '+' || ch == '-' || ch == '.'
    case UsernameOrHostname => IsUnreserved(ch) || ch == '%'
    case Hostname => IsUnreserved(ch) || ch == '%'
    case Password => IsAlnum(ch) || ch == '%'
    case PortOrPassword => IsDigit(ch)
    case Port => IsDigit(ch)
    case Path => ch != '#' && ch != '?'
    case Query => ch != '#' && ch != '?'
    case Fragment => true
    case _ => false
  }

  const LOWER := "abcdefghijklmnopqrstuvwxyz"
  const UPPER := "ABCDEFGHIJKLMNOPQRSTUVWXYZ"
  const DIGITS := "0123456789"

  // The alphabets, letter by letter.
  lemma Alphabets(ch: char)
    ensures Plain(Scheme, ch) <==> IsLetter(ch) || ch in DIGITS || ch in "+-."
    ensures Plain(UsernameOrHostname, ch) <==> IsLetter(ch) || ch in DIGITS || ch in "-._~%"
    ensures Plain(Hostname, ch) <==> IsLetter(ch) || ch in DIGITS || ch in "-._~%"
    ensures Plain(Password, ch) <==> IsLetter(ch) || ch in DIGITS || ch in "%"
    ensures Plain(Port, ch) <==> ch in DIGITS
    ensures Plain(Path, ch) && Plain(Query, ch) <==> ch !in "#?"
    ensures Plain(Fragment, ch)
  {
    Letters(ch);
    Digits(ch);
  }

  predicate IsLetter(ch: char) { ch in LOWER || ch in UPPER }

  lemma Letters(ch: char)
    ensures IsLetter(ch) <==> 'a' <= ch <= 'z' || 'A' <= ch <= 'Z'
  {
    Lower(ch);
    Upper(ch);
  }

  lemma Lower(ch: char)
    ensures ch in LOWER <==> 'a' <= ch <= 'z'
  {
    if 'a' <= ch <= 'z' {
      LowerAt(ch as int - 'a' as int);
    }
  }

  lemma LowerAt(k: nat)
    requires k < 26
    ensures LOWER[k] as int == 'a' as int + k
  {
  }

  lemma Upper(ch: char)
    ensures ch in UPPER <==> 'A' <= ch <= 'Z'
  {
    if 'A' <= ch <= 'Z' {
      UpperAt(ch as int - 'A' as int);
    }
  }

  lemma UpperAt(k: nat)
    requires k < 26
    ensures UPPER[k] as int == 'A' as int + k
  {
  }

  lemma Digits(ch: char)
    ensures ch in DIGITS <==> IsDigit(ch)
  {
    if IsDigit(ch) {
      assert DIGITS[ch as int - '0' as int] == ch;
    }
  }

  predicate AllPlain(state: State, s: string) {
    forall i :: 0 <= i < |s| ==> Plain(state, s[i])
  }

  // Where they go.
  function Collect(m: Machine, s: string): Machine
    requires m.Machine?
  {
    match m.state
    case Scheme => m.(url := m.url.(scheme := m.url.scheme + s))
    case UsernameOrHostname => m.(nameOrHost := m.nameOrHost + s)
    case Hostname => m.(url := m.url.(hostname := m.url.hostname + s))
    case Password => m.(url := m.url.(password := m.url.password + s))
    case PortOrPassword => m.(portOrPass := m.portOrPass + s)
    case Port => m.(portOrPass := m.portOrPass + s)
    case Path => m.(url := m.url.(path := m.url.path + s))
    case Query => m.(url := m.url.(query := m.url.query + s))
    case Fragment => m.(url := m.url.(fragment := m.url.fragment + s))
    case _ => m
  }

  lemma {:induction false} RunAppend(m: Machine, s: string, t: string)
    ensures Run(m, s + t) == Run(Run(m, s), t)
    decreases |s|
  {
    if s == "" {
      assert s + t == t;
    } else if m.Machine? {
      assert (s + t)[1..] == s[1..] + t;
      RunAppend(m.Step(s[0]), s[1..], t);
    }
  }

  lemma StepCollects(m: Machine, ch: char)
    requires m.Machine? && Plain(m.state, ch)
    ensures m.Step(ch) == Collect(m, [ch])
  {
  }

  lemma CollectAppend(m: Machine, ch: char, s: string)
    requires m.Machine? && Plain(m.state, ch)
    ensures Collect(m, [ch]).Machine? && Collect(Collect(m, [ch]), s) == Collect(m, [ch] + s)
  {
  }

  lemma {:induction false} RunCollects(m: Machine, s: string)
    requires m.Machine? && AllPlain(m.state, s)
    ensures Run(m, s) == Collect(m, s)
    decreases |s|
  {
    if s != "" {
      StepCollects(m, s[0]);
      CollectAppend(m, s[0], s[1..]);
      assert [s[0]] + s[1..] == s;
      RunCollects(m.Step(s[0]), s[1..]);
    }
  }

  lemma RunThen(m: Machine, s: string, ch: char, t: string)
    requires m.Machine? && AllPlain(m.state, s)
    ensures Run(m, s + ([ch] + t)) == Run(Collect(m, s).Step(ch), t)
  {
    RunAppend(m, s, [ch] + t);
    RunCollects(m, s);
    assert ([ch] + t)[1..] == t;
  }

  // ---- Well-formed components. User names and passwords have the same alphabet, and a query may hold
  // anything but '#'; which passwords and queries the parser reads back is the question.
  predicate WellFormed(c: Components) {
    && AllPlain(Scheme, c.scheme) && AllPlain(UsernameOrHostname, c.host)
    && AllPlain(UsernameOrHostname, c.user.OrEmpty())
    && AllPlain(UsernameOrHostname, c.password.OrEmpty())
    && AllPlain(Port, c.port.OrEmpty()) && IsQuery(c.query.OrEmpty())
    && (c.password.Some? ==> c.user.Some?)
    && c.path != "" && c.path[0] == '/' && AllPlain(Path, c.path[1..])
  }

  predicate IsQuery(s: string) {
    forall i :: 0 <= i < |s| ==> s[i] != '#'
  }

  // What the parser keeps of a query: a '?' starts the query again, but clears nothing.
  function Kept(s: string): (r: string)
    ensures AllPlain(Query, r) == IsQuery(s)
    ensures r == s <==> '?' !in s
    ensures |r| <= |s|
  {
    if s == "" then ""
    else
      var rest := Kept(s[1..]);
      assert s == [s[0]] + s[1..];
      if s[0] == '?' then
        assert '?' in s;
        assert |rest| < |s|;
        assert AllPlain(Query, rest) <==> IsQuery(s);
        rest
      else
        var r := [s[0]] + rest;
        assert r[1..] == rest;
        assert forall i :: 0 < i < |s| ==> s[i] == s[1..][i - 1];
        assert forall i :: 0 < i < |r| ==> r[i] == rest[i - 1];
        r
  }

  // Behind the path, whatever it is: what is kept of the query, and the fragment, end up in their fields.
  lemma TailParses(m: Machine, r: string, c: Components)
    requires m.Machine? && m.state == Path && m.url.query == "" && m.url.fragment == ""
    requires AllPlain(Path, r) && IsQuery(c.query.OrEmpty())
    ensures var e := Run(m, r + PrintTail(c));
            && e.Machine? && e.nameOrHost == m.nameOrHost && e.portOrPass == m.portOrPass
            && e.url == m.url.(path := m.url.path + r, query := Kept(c.query.OrEmpty()),
                               fragment := c.fragment.OrEmpty())
  {
    if c.query.Some? {
      QueryParses(m, r, c);
    } else {
      assert PrintTail(c) == c.fragment.After('#');
      FragmentParses(m, r, c);
      assert m.url.query == "";
    }
  }

  lemma QueryParses(m: Machine, r: string, c: Components)
    requires m.Machine? && m.state == Path && m.url.query == "" && m.url.fragment == ""
    requires AllPlain(Path, r) && c.query.Some? && IsQuery(c.query.s)
    ensures var e := Run(m, r + PrintTail(c));
            && e.Machine? && e.nameOrHost == m.nameOrHost && e.portOrPass == m.portOrPass
            && e.url == m.url.(path := m.url.path + r, query := Kept(c.query.s), fragment := c.fragment.OrEmpty())
  {
    hide Run, Kept;
    var f := c.fragment.After('#');
    assert PrintTail(c) == ['?'] + (c.query.s + f);
    RunThen(m, r, '?', c.query.s + f);
    var q := Collect(m, r).Goto(Query);
    RunAppend(q, c.query.s, f);
    QueryCollects(q, c.query.s);
    FragmentParses(Collect(q, Kept(c.query.s)), "", c);
    assert "" + f == f && "" + Kept(c.query.s) == Kept(c.query.s);
    assert c.fragment.Some? ==> "" + c.fragment.s == c.fragment.s;
    assert Kept(c.query.s) + "" == Kept(c.query.s);
  }

  lemma {:induction false} QueryCollects(m: Machine, s: string)
    requires m.Machine? && m.state == Query && IsQuery(s)
    ensures Run(m, s) == Collect(m, Kept(s))
    decreases |s|
  {
    if s == "" {
      assert m.url.query + "" == m.url.query;
    } else {
      QueryCollects(m.Step(s[0]), s[1..]);
      assert m.url.query + ([s[0]] + Kept(s[1..])) == m.url.query + [s[0]] + Kept(s[1..]);
    }
  }

  lemma FragmentParses(m: Machine, s: string, c: Components)
    requires m.Machine? && (m.state == Path || m.state == Query) && m.url.fragment == "" && AllPlain(m.state, s)
    ensures Run(m, s + c.fragment.After('#'))
            == if c.fragment.Some? then Collect(Collect(m, s).Goto(Fragment), c.fragment.s) else Collect(m, s)
  {
    if c.fragment.Some? {
      RunThen(m, s, '#', c.fragment.s);
      RunCollects(Collect(m, s).Goto(Fragment), c.fragment.s);
    } else {
      assert s + "" == s;
      RunCollects(m, s);
    }
  }

  // The machine at the start of the path.
  function AtPath(c: Components): Machine {
    Machine(Path, UrlOf(c).(path := "/", query := "", fragment := ""), "", "")
  }

  // What scheme and login have put into the URL.
  function LoginUrl(c: Components): Url {
    NO_URL.(path := "/", scheme := c.scheme, username := c.user.OrEmpty(), password := c.password.OrEmpty())
  }

  // From the first character of the host, with or without a login before it.
  lemma HostParses(m: Machine, c: Components, t: string)
    requires WellFormed(c) && m.Machine? && m.nameOrHost == "" && m.portOrPass == ""
    requires m.state == (if c.user.Some? then Hostname else UsernameOrHostname)
    requires m.url == LoginUrl(c)
    ensures Run(m, c.host + (c.port.After(':') + (['/'] + t))) == Run(AtPath(c), t)
  {
    hide Run;
    if c.port.Some? {
      PortParses(m, c, t);
    } else {
      assert c.port.After(':') + (['/'] + t) == ['/'] + t;
      RunThen(m, c.host, '/', t);
      assert "" + c.host == c.host;
      assert Number("") == 0;
    }
  }

  lemma PortParses(m: Machine, c: Components, t: string)
    requires WellFormed(c) && c.port.Some? && m.Machine? && m.nameOrHost == "" && m.portOrPass == ""
    requires m.state == (if c.user.Some? then Hostname else UsernameOrHostname)
    requires m.url == LoginUrl(c)
    ensures Run(m, c.host + (c.port.After(':') + (['/'] + t))) == Run(AtPath(c), t)
  {
    hide Run, AtPath, AfterColon, Collect, Machine.Step;
    assert c.port.After(':') + (['/'] + t) == [':'] + (c.port.s + (['/'] + t));
    RunThen(m, c.host, ':', c.port.s + (['/'] + t));
    AtColon(m, c);
    RunThen(AfterColon(m, c), c.port.s, '/', t);
    AtSlash(m, c);
  }

  lemma AtColon(m: Machine, c: Components)
    requires m.Machine? && m.nameOrHost == "" && m.portOrPass == "" && m.url.hostname == ""
    requires m.state == (if c.user.Some? then Hostname else UsernameOrHostname)
    ensures Collect(m, c.host).Step(':') == AfterColon(m, c)
    ensures AfterColon(m, c).state == if c.user.Some? then Port else PortOrPassword
  {
    assert "" + c.host == c.host;
  }

  // The slash behind a port.
  lemma AtSlash(m: Machine, c: Components)
    requires c.port.Some? && m.Machine? && m.nameOrHost == "" && m.portOrPass == ""
    requires m.state == (if c.user.Some? then Hostname else UsernameOrHostname)
    requires m.url == LoginUrl(c)
    ensures Collect(AfterColon(m, c), c.port.s).Step('/') == AtPath(c)
  {
    hide Number;
    assert "" + c.port.s == c.port.s;
  }

  // Behind host and ':'.
  function AfterColon(m: Machine, c: Components): (r: Machine)
    requires m.Machine?
    ensures r.Machine?
  {
    if c.user.Some? then Machine(Port, m.url.(hostname := c.host), "", "")
    else Machine(PortOrPassword, m.url, c.host, "")
  }

  // The first character that is no digit, or the length.
  function DigitsEnd(s: string): (i: nat)
    ensures i <= |s| && AllPlain(PortOrPassword, s[..i]) && (i < |s| ==> !IsDigit(s[i]))
  {
    if s == "" || !IsDigit(s[0]) then 0
    else
      var i := 1 + DigitsEnd(s[1..]);
      assert s[..i] == [s[0]] + s[1..][..i - 1];
      i
  }

  predicate AllDigits(s: string) {
    AllPlain(PortOrPassword, s)
  }

  predicate Readable(password: string) {
    AllPlain(Password, password) && !AllDigits(password)
  }

  // A login with a readable password brings the machine to the host name.
  lemma LoginParses(m: Machine, c: Components, t: string)
    requires WellFormed(c) && c.user.Some? && (c.password.Some? ==> Readable(c.password.s))
    requires m == Machine(UsernameOrHostname, NO_URL.(path := "/", scheme := c.scheme), "", "")
    ensures Run(m, c.user.s + (c.password.After(':') + (['@'] + t)))
            == Run(Machine(Hostname, m.url.(username := c.user.s, password := c.password.OrEmpty()), "", ""), t)
  {
    if c.password.Some? {
      PasswordParses(m, c, t);
    } else {
      assert c.password.After(':') + (['@'] + t) == ['@'] + t;
      RunThen(m, c.user.s, '@', t);
      assert "" + c.user.s == c.user.s;
    }
  }

  lemma PasswordParses(m: Machine, c: Components, t: string)
    requires WellFormed(c) && c.user.Some? && c.password.Some? && Readable(c.password.s)
    requires m == Machine(UsernameOrHostname, NO_URL.(path := "/", scheme := c.scheme), "", "")
    ensures Run(m, c.user.s + (c.password.After(':') + (['@'] + t)))
            == Run(Machine(Hostname, m.url.(username := c.user.s, password := c.password.s), "", ""), t)
  {
    hide Run;
    var digits, mark, more := SplitPassword(c.password.s);
    var behind := more + (['@'] + t);
    assert c.password.After(':') + (['@'] + t) == [':'] + (digits + ([mark] + behind));
    RunThen(m, c.user.s, ':', digits + ([mark] + behind));
    assert "" + c.user.s == c.user.s && "" + digits == digits;
    DigitsThenMark(Machine(PortOrPassword, m.url, c.user.s, ""), digits, mark, more, t);
    assert c.password.s == digits + [mark] + more;
  }

  lemma SplitPassword(p: string) returns (digits: string, mark: char, more: string)
    requires Readable(p)
    ensures p == digits + [mark] + more && AllDigits(digits)
    ensures Plain(Password, mark) && !IsDigit(mark) && AllPlain(Password, more)
  {
    var i := DigitsEnd(p);
    assert p[..|p|] == p;
    digits, mark, more := p[..i], p[i], p[i + 1..];
  }

  lemma DigitsThenMark(n: Machine, digits: string, mark: char, more: string, t: string)
    requires n.Machine? && n.state == PortOrPassword && n.portOrPass == ""
    requires n.url.username == "" && n.url.password == ""
    requires AllDigits(digits) && Plain(Password, mark) && !IsDigit(mark) && AllPlain(Password, more)
    ensures Run(n, digits + ([mark] + (more + (['@'] + t))))
            == Run(Machine(Hostname, n.url.(username := n.nameOrHost, password := digits + [mark] + more), "", ""), t)
  {
    hide Run;
    assert "" + digits == digits;
    RunThen(n, digits, mark, more + (['@'] + t));
    var q := Machine(Password, n.url.(username := n.nameOrHost, password := digits + [mark]), "", "");
    RunThen(q, more, '@', t);
  }

  // MAIN: parsing what was printed gives back every component, exactly when the password, if there
  // is one, has letters, digits and '%' only and is not made of digits alone, and the query has no '?'.
  // (The source takes a password of digits for a port, and drops every '?' of a query.)
  lemma ParseAfterPrint(c: Components)
    requires WellFormed(c)
    ensures var o, readable := Finish(Run(START, Print(c))), c.password.Some? ==> Readable(c.password.s);
            && (o == Outcome.Valid(UrlOf(c)) <==> readable && '?' !in c.query.OrEmpty())
            && (o.Valid? <==> readable)
            && (readable ==> o == Outcome.Valid(UrlOf(c).(query := Kept(c.query.OrEmpty()))))
  {
    hide Run, Collect, Kept;
    var m := Machine(UsernameOrHostname, NO_URL.(path := "/", scheme := c.scheme), "", "");
    AfterScheme(c);
    if c.password.Some? && AllDigits(c.password.s) {
      DigitPassword(m, c);
    } else if c.password.Some? && !AllPlain(Password, c.password.s) {
      RefusedPassword(m, c);
    } else {
      if c.user.Some? {
        LoginParses(m, c, PrintHost(c));
      }
      var h := Machine(if c.user.Some? then Hostname else UsernameOrHostname,
                       m.url.(username := c.user.OrEmpty(), password := c.password.OrEmpty()), "", "");
      var r := c.path[1..];
      assert c.path + PrintTail(c) == ['/'] + (r + PrintTail(c));
      HostParses(h, c, r + PrintTail(c));
      TailParses(AtPath(c), r, c);
      assert "/" + r == c.path;
    }
  }

  // The decimal numeral of n, without leading zeros.
  function Decimal(n: nat): (s: string)
    ensures s != "" && AllDigits(s)
  {
    var digit := DIGITS[n % 10];
    if n < 10 then [digit]
    else
      var r := Decimal(n / 10) + [digit];
      assert forall i :: 0 <= i < |r| - 1 ==> r[i] == Decimal(n / 10)[i];
      r
  }

  lemma {:induction false} NumberOfDecimal(n: nat)
    ensures Number(Decimal(n)) == n
  {
    DigitValue(n % 10);
    var d := DIGITS[n % 10];
    if n < 10 {
      assert Decimal(n) == [d] && [d][..0] == "";
      NoNumber();
    } else {
      NumberOfDecimal(n / 10);
      assert Decimal(n)[..|Decimal(n)| - 1] == Decimal(n / 10);
    }
  }

  lemma DigitValue(k: nat)
    requires k < 10
    ensures IsDigit(DIGITS[k]) && DIGITS[k] as int - '0' as int == k
  {
  }

  // Every port number reads back as its value, 16 bits of it.
  lemma PortReadsBack(c: Components, n: nat)
    requires WellFormed(c.(port := Some(Decimal(n)))) && (c.password.Some? ==> Readable(c.password.s))
    ensures var o := Finish(Run(START, Print(c.(port := Some(Decimal(n))))));
            && o.Valid? && o.url.port == Decimal(n) && o.url.integerPort == n % 0x1_0000
            && (n < 0x1_0000 ==> o.url.integerPort == n)
  {
    hide Run, Decimal, Number;
    ParseAfterPrint(c.(port := Some(Decimal(n))));
    NumberOfDecimal(n);
  }

  lemma AfterScheme(c: Components)
    requires AllPlain(Scheme, c.scheme)
    ensures Run(START, Print(c))
            == Run(Machine(UsernameOrHostname, NO_URL.(path := "/", scheme := c.scheme), "", ""), PrintLogin(c))
  {
    hide Run;
    assert "://" + PrintLogin(c) == [':'] + (['/'] + (['/'] + PrintLogin(c)));
    RunThen(START, c.scheme, ':', ['/'] + (['/'] + PrintLogin(c)));
    assert "" + c.scheme == c.scheme;
    TwoSlashes(Collect(START, c.scheme).Goto(SlashAfterScheme1), PrintLogin(c));
  }

  lemma TwoSlashes(m: Machine, t: string)
    requires m.Machine? && m.state == SlashAfterScheme1
    ensures Run(m, ['/'] + (['/'] + t)) == Run(m.Goto(UsernameOrHostname), t)
  {
    assert (['/'] + (['/'] + t))[1..] == ['/'] + t;
    assert (['/'] + t)[1..] == t;
  }

  lemma RunStopped(m: Machine, t: string)
    requires !m.Machine?
    ensures Run(m, t) == m
  {
  }

  // A password of digits stops the machine at the '@', and the leftover digits trip the assertion.
  lemma DigitPassword(m: Machine, c: Components)
    requires WellFormed(c) && c.password.Some? && AllDigits(c.password.s)
    requires m == Machine(UsernameOrHostname, NO_URL.(path := "/", scheme := c.scheme), "", "")
    ensures Finish(Run(m, PrintLogin(c)))
            == if c.password.s != "" then Abort
               else Bad(if c.user.s != "" then NO_URL.(hostname := c.user.s) else NO_URL)
  {
    hide Run;
    var p, t := c.password.s, PrintHost(c);
    assert c.password.After(':') + (['@'] + t) == [':'] + (p + (['@'] + t));
    RunThen(m, c.user.s, ':', p + (['@'] + t));
    var n := Machine(PortOrPassword, m.url, c.user.s, "");
    assert "" + c.user.s == c.user.s && "" + p == p;
    RunThen(n, p, '@', t);
    RunStopped(Collect(n, p).Step('@'), t);
  }

  // A password with a character its state does not collect stops the machine there.
  lemma RefusedPassword(m: Machine, c: Components)
    requires WellFormed(c) && c.password.Some? && !AllPlain(Password, c.password.s)
    requires m == Machine(UsernameOrHostname, NO_URL.(path := "/", scheme := c.scheme), "", "")
    ensures Run(m, PrintLogin(c)).Invalid? && !Finish(Run(m, PrintLogin(c))).Valid?
  {
    var p, t := c.password.s, ['@'] + PrintHost(c);
    assert c.password.After(':') + t == [':'] + (p + t);
    RunThen(m, c.user.s, ':', p + t);
    Refused(Collect(m, c.user.s).Goto(PortOrPassword), p, t);
  }

  lemma {:induction false} Refused(m: Machine, p: string, t: string)
    requires m.Machine? && m.state in {PortOrPassword, Password}
    requires AllPlain(UsernameOrHostname, p) && !AllPlain(Password, p)
    ensures Run(m, p + t).Invalid?
    decreases |p|
  {
    var n := m.Step(p[0]);
    assert (p + t)[0] == p[0] && (p + t)[1..] == p[1..] + t;
    assert p == [p[0]] + p[1..];
    if Plain(Password, p[0]) {
      Refused(n, p[1..], t);
    } else {
      assert Run(n, p[1..] + t) == n;
    }
  }

  // A URL without a path, whatever follows its authority, reads back, with the path "/", exactly when
  // it has neither port, query nor fragment: a port that no slash follows trips the assertion, and a
  // '?' or '#' behind the authority is refused.
  lemma AuthorityOnly(c: Components)
    requires WellFormed(c.(path := "/")) && c.path == ""
    requires c.password.Some? ==> Readable(c.password.s)
    ensures var o := Finish(Run(START, Print(c)));
            && (o == Outcome.Valid(UrlOf(c)) <==> c.port.OrEmpty() == "" && c.query.None? && c.fragment.None?)
            && (o == Abort <==> c.port.OrEmpty() != "")
  {
    hide Run, Collect;
    var m := Machine(UsernameOrHostname, NO_URL.(path := "/", scheme := c.scheme), "", "");
    AfterScheme(c);
    if c.user.Some? {
      LoginParses(m, c.(path := "/"), PrintHost(c));
    }
    var h := Machine(if c.user.Some? then Hostname else UsernameOrHostname,
                     m.url.(username := c.user.OrEmpty(), password := c.password.OrEmpty()), "", "");
    HostEnds(h, c);
  }

  // What the machine has when host and port are read.
  function BehindHost(h: Machine, c: Components): (m: Machine)
    requires h.Machine? && (h.state == Hostname || h.state == UsernameOrHostname)
    ensures m.Machine?
  {
    if c.port.Some? then Collect(AfterColon(h, c), c.port.s) else Collect(h, c.host)
  }

  lemma HostEnds(h: Machine, c: Components)
    requires WellFormed(c.(path := "/")) && c.path == ""
    requires h.Machine? && h.nameOrHost == "" && h.portOrPass == ""
    requires h.state == (if c.user.Some? then Hostname else UsernameOrHostname)
    requires h.url == LoginUrl(c)
    ensures var o := Finish(Run(h, PrintHost(c)));
            && (o == Outcome.Valid(UrlOf(c)) <==> c.port.OrEmpty() == "" && c.query.None? && c.fragment.None?)
            && (o == Abort <==> c.port.OrEmpty() != "")
  {
    HostCollected(h, c);
    PortLeftOver(h, c);
    if c.port.OrEmpty() == "" && PrintTail(c) == "" {
      NothingLeft(h, c);
      NamedHost(BehindHost(h, c), c);
    }
  }

  // The machine stops at a '?' or '#' behind the authority, and else has collected all of it.
  lemma HostCollected(h: Machine, c: Components)
    requires AllPlain(UsernameOrHostname, c.host) && AllPlain(Port, c.port.OrEmpty()) && c.path == ""
    requires h.Machine? && h.nameOrHost == "" && h.portOrPass == "" && h.url.hostname == ""
    requires h.state == (if c.user.Some? then Hostname else UsernameOrHostname)
    ensures Run(h, PrintHost(c))
            == if PrintTail(c) == "" then BehindHost(h, c) else BehindHost(h, c).Fail()
  {
    hide Run;
    assert "" + c.host == c.host;
    if c.port.Some? {
      assert PrintHost(c) == c.host + ([':'] + (c.port.s + PrintTail(c)));
      RunThen(h, c.host, ':', c.port.s + PrintTail(c));
      EndsOrFails(AfterColon(h, c), c.port.s, PrintTail(c));
    } else {
      assert PrintHost(c) == c.host + PrintTail(c);
      EndsOrFails(h, c.host, PrintTail(c));
    }
  }

  lemma EndsOrFails(m: Machine, s: string, tail: string)
    requires m.Machine? && m.state in {UsernameOrHostname, Hostname, Port, PortOrPassword} && AllPlain(m.state, s)
    requires tail != "" ==> tail[0] in {'?', '#'}
    ensures Run(m, s + tail) == if tail == "" then Collect(m, s) else Collect(m, s).Fail()
  {
    RunAppend(m, s, tail);
    RunCollects(m, s);
  }

  lemma PortLeftOver(h: Machine, c: Components)
    requires h.Machine? && (h.state == Hostname || h.state == UsernameOrHostname) && h.portOrPass == ""
    ensures BehindHost(h, c).portOrPass == c.port.OrEmpty()
  {
    assert c.port.Some? ==> "" + c.port.s == c.port.s;
  }

  lemma NothingLeft(h: Machine, c: Components)
    requires c.path == "" && c.port.OrEmpty() == ""
    requires h.Machine? && h.nameOrHost == "" && h.portOrPass == ""
    requires h.state == (if c.user.Some? then Hostname else UsernameOrHostname)
    requires h.url == LoginUrl(c) && PrintTail(c) == ""
    ensures var m := BehindHost(h, c);
            && m.portOrPass == "" && m.nameOrHost == (if c.user.Some? then "" else c.host)
            && (m.url == UrlOf(c) || (c.user.None? && m.url == UrlOf(c).(hostname := "")))
  {
    assert Number("") == 0 && "" + c.host == c.host;
    if c.port.Some? {
      assert Collect(AfterColon(h, c), "") == AfterColon(h, c);
    }
  }

  // A host name that is still in the accumulator when the input ends is taken from there.
  lemma NamedHost(m: Machine, c: Components)
    requires m.Machine? && m.portOrPass == ""
    requires m.nameOrHost == (if c.user.Some? then "" else c.host)
    requires m.url == UrlOf(c) || (c.user.None? && m.url == UrlOf(c).(hostname := ""))
    ensures Finish(m) == Outcome.Valid(UrlOf(c))
  {
  }

  // ---- When parse aborts, for any input.

  // Scheme, login and host as far as they have been read.
  datatype Front = Front(scheme: string, slashes: bool, user: Opt, password: Opt, host: string)
  {
    function Behind(): string {
      if user.Some? then user.s + (password.After(':') + (['@'] + host)) else host
    }

    function Text(): string { scheme + ((if slashes then "://" else ":") + Behind()) }

    // The parser takes an authority without slashes if it starts with a letter or digit.
    predicate Ok() {
      && AllPlain(Scheme, scheme) && AllPlain(UsernameOrHostname, host)
      && AllPlain(UsernameOrHostname, user.OrEmpty())
      && (password.Some? ==> user.Some? && Readable(password.s))
      && (slashes || (Behind() != "" && IsAlnum(Behind()[0])))
    }

    function Reached(): (m: Machine)
      ensures m.Machine?
    {
      var u := NO_URL.(path := "/", scheme := scheme, username := user.OrEmpty(), password := password.OrEmpty());
      if user.Some? then Machine(Hostname, u.(hostname := host), "", "") else Machine(UsernameOrHostname, u, host, "")
    }

    // Behind a host and ':'.
    function AtPort(digits: string): (m: Machine)
      ensures m.Machine?
    {
      var m := Reached();
      Machine(if user.Some? then Port else PortOrPassword, m.url, m.nameOrHost, digits)
    }

    // What may not follow the digits of a port, if anything follows.
    predicate Stops(tail: string) {
      tail == "" || !(IsDigit(tail[0]) || tail[0] == '/' || (user.None? && (IsAlnum(tail[0]) || tail[0] == '%')))
    }
  }

  predicate PortSplit(s: string, x: Front, digits: string, tail: string) {
    && x.Ok() && digits != "" && AllDigits(digits) && x.Stops(tail)
    && s == x.Text() + ":" + digits + tail
  }

  predicate BracketSplit(s: string, x: Front, tail: string) {
    x.Ok() && x.user.Some? && x.host == "" && tail != "" && s == x.Text() + "[" + tail
  }

  // MAIN: parse aborts exactly on inputs of two forms: a port that neither a slash follows nor, without
  // a login, what makes it a password; and a login whose host starts with '[' and goes on.
  lemma AbortsIff(s: string)
    ensures Finish(Run(START, s)) == Abort
            <==> (exists x, digits, tail :: PortSplit(s, x, digits, tail)) || exists x, tail :: BracketSplit(s, x, tail)
  {
    if x, digits, tail :| PortSplit(s, x, digits, tail) {
      PortAborts(s, x, digits, tail);
    }
    if x, tail :| BracketSplit(s, x, tail) {
      BracketAborts(s, x, tail);
    }
    if Finish(Run(START, s)) == Abort {
      AbortSplits(s);
    }
  }

  lemma FrontRuns(x: Front, t: string)
    requires x.Ok()
    ensures Run(START, x.Text() + t) == Run(x.Reached(), t)
  {
    hide Run, Front.Behind, Front.Text, Front.Reached;
    var m := Machine(SlashAfterScheme1, NO_URL.(path := "/", scheme := x.scheme), "", "");
    var u := if x.slashes then ['/'] + (['/'] + (x.Behind() + t)) else x.Behind() + t;
    FrontText(x, t, u);
    RunThen(START, x.scheme, ':', u);
    assert "" + x.scheme == x.scheme;
    if x.slashes {
      TwoSlashes(m, x.Behind() + t);
    } else {
      NoSlashes(m, u);
    }
    BehindRuns(x, t);
  }

  lemma FrontText(x: Front, t: string, u: string)
    requires u == if x.slashes then ['/'] + (['/'] + (x.Behind() + t)) else x.Behind() + t
    ensures x.Text() + t == x.scheme + ([':'] + u)
  {
  }

  lemma NoSlashes(m: Machine, t: string)
    requires m.Machine? && m.state == SlashAfterScheme1 && m.nameOrHost == "" && t != "" && IsAlnum(t[0])
    ensures Run(m, t) == Run(m.Goto(UsernameOrHostname), t)
  {
    assert "" + [t[0]] == [t[0]];
  }

  lemma BehindRuns(x: Front, t: string)
    requires x.Ok()
    ensures Run(Machine(UsernameOrHostname, NO_URL.(path := "/", scheme := x.scheme), "", ""), x.Behind() + t)
            == Run(x.Reached(), t)
  {
    hide Run, Collect;
    var m := Machine(UsernameOrHostname, NO_URL.(path := "/", scheme := x.scheme), "", "");
    if x.user.Some? {
      var c := Components(x.scheme, x.user, x.password, x.host, None, "/", None, None);
      LoginParses(m, c, x.host + t);
      assert x.Behind() + t == x.user.s + (x.password.After(':') + (['@'] + (x.host + t)));
      var h := Machine(Hostname, m.url.(username := x.user.s, password := x.password.OrEmpty()), "", "");
      HostCollects(h, x.host, t);
    } else {
      HostCollects(m, x.host, t);
    }
  }

  lemma HostCollects(m: Machine, host: string, t: string)
    requires m.Machine? && m.state in {UsernameOrHostname, Hostname} && AllPlain(m.state, host)
    requires m.nameOrHost == "" && m.url.hostname == ""
    ensures Run(m, host + t)
            == Run(if m.state == Hostname then m.(url := m.url.(hostname := host)) else m.(nameOrHost := host), t)
  {
    hide Run;
    RunAppend(m, host, t);
    RunCollects(m, host);
    assert "" + host == host;
  }

  lemma PortAborts(s: string, x: Front, digits: string, tail: string)
    requires PortSplit(s, x, digits, tail)
    ensures Finish(Run(START, s)) == Abort
  {
    hide Run, Front.Reached, Front.AtPort, Front.Ok, Front.Text, Front.Stops;
    assert s == x.Text() + ([':'] + (digits + tail));
    FrontRuns(x, [':'] + (digits + tail));
    ToPort(x, digits + tail);
    ThroughPort(x, digits, tail);
    PortStops(x, digits, tail);
  }

  lemma ToPort(x: Front, t: string)
    ensures Run(x.Reached(), [':'] + t) == Run(x.AtPort(""), t)
  {
    assert ([':'] + t)[1..] == t;
    assert x.Reached().Step(':') == x.AtPort("");
  }

  lemma ThroughPort(x: Front, digits: string, t: string)
    requires AllDigits(digits)
    ensures Run(x.AtPort(""), digits + t) == Run(x.AtPort(digits), t)
  {
    hide Run;
    RunAppend(x.AtPort(""), digits, t);
    RunCollects(x.AtPort(""), digits);
    assert "" + digits == digits;
  }

  lemma PortStops(x: Front, digits: string, tail: string)
    requires x.Stops(tail)
    ensures PortLeft(Run(x.AtPort(digits), tail)) == digits
  {
    if tail != "" {
      RunStopped(x.AtPort(digits).Step(tail[0]), tail[1..]);
    }
  }

  lemma BracketAborts(s: string, x: Front, tail: string)
    requires BracketSplit(s, x, tail)
    ensures Finish(Run(START, s)) == Abort
  {
    assert s == x.Text() + (['['] + tail);
    FrontRuns(x, ['['] + tail);
    assert (['['] + tail)[1..] == tail;
    RunStopped(Aborted, tail[1..]);
  }

  // The slashes behind the scheme may be left out in front of a letter or digit, and only there.
  lemma SlashesOptional(c: Components)
    requires AllPlain(Scheme, c.scheme) && PrintLogin(c) != "" && PrintLogin(c)[0] != '/'
    ensures var short := c.scheme + ([':'] + PrintLogin(c));
            if IsAlnum(PrintLogin(c)[0]) then Run(START, short) == Run(START, Print(c)) else Run(START, short).Invalid?
  {
    hide Run, PrintLogin;
    var m := Machine(SlashAfterScheme1, NO_URL.(path := "/", scheme := c.scheme), "", "");
    RunThen(START, c.scheme, ':', PrintLogin(c));
    assert "" + c.scheme == c.scheme;
    AfterScheme(c);
    if IsAlnum(PrintLogin(c)[0]) {
      NoSlashes(m, PrintLogin(c));
    } else {
      FirstStep(m, PrintLogin(c));
      RunStopped(m.Step(PrintLogin(c)[0]), PrintLogin(c)[1..]);
    }
  }

  lemma FirstStep(m: Machine, t: string)
    requires m.Machine? && t != ""
    ensures Run(m, t) == Run(m.Step(t[0]), t[1..])
  {
  }

  // What has been read when the machine is at m: nothing is lost before the path.
  predicate Spelled(m: Machine, s: string, x: Front, d: string)
    requires m.Machine?
  {
    var u := NO_URL.(path := "/", scheme := x.scheme);
    match m.state
    case Scheme => AllPlain(Scheme, s) && s == x.scheme && m == Machine(Scheme, u, "", "")
    case SlashAfterScheme1 =>
      AllPlain(Scheme, x.scheme) && s == x.scheme + ":" && m == Machine(SlashAfterScheme1, u, "", "")
    case SlashAfterScheme2 =>
      AllPlain(Scheme, x.scheme) && s == x.scheme + ":/" && m == Machine(SlashAfterScheme2, u, "", "")
    case UsernameOrHostname => x.Ok() && m == x.Reached() && s == x.Text()
    case Hostname => x.Ok() && m == x.Reached() && s == x.Text()
    case PortOrPassword => x.Ok() && AllDigits(d) && m == x.AtPort(d) && s == x.Text() + ":" + d
    case Port => x.Ok() && AllDigits(d) && m == x.AtPort(d) && s == x.Text() + ":" + d
    case Password =>
      && x.Ok() && x.user.None? && Readable(d) && s == x.Text() + ":" + d
      && m == Machine(Password, u.(username := x.host, password := d), "", "")
    case IPV6Hostname =>
      && x.Ok() && x.user.Some? && x.host == "" && s == x.Text() + "["
      && m == x.Reached().(state := IPV6Hostname)
    case _ => m.portOrPass == ""
  }

  lemma StepSpelled(m: Machine, s: string, x: Front, d: string, ch: char) returns (y: Front, e: string)
    requires m.Machine? && Spelled(m, s, x, d)
    ensures m.Step(ch).Machine? ==> Spelled(m.Step(ch), s + [ch], y, e)
  {
    y, e := x, d;
    match m.state
    case Scheme => y := SchemeSpelled(m, s, x, d, ch);
    case SlashAfterScheme1 => y := SlashSpelled(m, s, x, d, ch);
    case SlashAfterScheme2 => y := SlashSpelled(m, s, x, d, ch);
    case UsernameOrHostname => y, e := HostSpelled(m, s, x, d, ch);
    case Hostname => y, e := HostSpelled(m, s, x, d, ch);
    case PortOrPassword => e := PortSpelled(m, s, x, d, ch);
    case Port => e := PortSpelled(m, s, x, d, ch);
    case Password => y, e := PasswordSpelled(m, s, x, d, ch);
    case IPV6Hostname =>
    case _ =>
  }

  lemma SchemeSpelled(m: Machine, s: string, x: Front, d: string, ch: char) returns (y: Front)
    requires m.Machine? && m.state == Scheme && Spelled(m, s, x, d)
    ensures m.Step(ch).Machine? ==> Spelled(m.Step(ch), s + [ch], y, d)
  {
    y := if ch == ':' then x else x.(scheme := s + [ch]);
  }

  lemma SlashSpelled(m: Machine, s: string, x: Front, d: string, ch: char) returns (y: Front)
    requires m.Machine? && m.state in {SlashAfterScheme1, SlashAfterScheme2} && Spelled(m, s, x, d)
    ensures m.Step(ch).Machine? ==> Spelled(m.Step(ch), s + [ch], y, d)
  {
    if ch == '/' {
      y := Front(x.scheme, true, None, None, "");
      assert y.Text() == x.scheme + "://";
    } else {
      y := Front(x.scheme, false, None, None, [ch]);
      assert y.Text() == x.scheme + (":" + [ch]);
    }
  }

  lemma HostSpelled(m: Machine, s: string, x: Front, d: string, ch: char) returns (y: Front, e: string)
    requires m.Machine? && m.state in {UsernameOrHostname, Hostname} && Spelled(m, s, x, d)
    ensures m.Step(ch).Machine? ==> Spelled(m.Step(ch), s + [ch], y, e)
  {
    y, e := x, "";
    if Plain(m.state, ch) {
      y := GrownHostSpelled(m, s, x, d, ch);
    } else if ch == ':' {
      assert s + [':'] == x.Text() + ":" + "";
    } else if ch == '@' && m.state == UsernameOrHostname {
      y := UserSpelled(m, s, x, d);
    }
  }

  lemma GrownHostSpelled(m: Machine, s: string, x: Front, d: string, ch: char) returns (y: Front)
    requires m.Machine? && m.state in {UsernameOrHostname, Hostname} && Spelled(m, s, x, d) && Plain(m.state, ch)
    ensures m.Step(ch).Machine? && Spelled(m.Step(ch), s + [ch], y, "")
  {
    y := x.(host := x.host + [ch]);
    SameFront(x, y, [ch]);
  }

  lemma UserSpelled(m: Machine, s: string, x: Front, d: string) returns (y: Front)
    requires m.Machine? && m.state == UsernameOrHostname && Spelled(m, s, x, d)
    ensures m.Step('@').Machine? && Spelled(m.Step('@'), s + ['@'], y, "")
  {
    y := Front(x.scheme, x.slashes, Some(x.host), None, "");
    assert y.Behind() == x.host + "@";
    SameFront(x, y, "@");
  }

  // More text behind the same front.
  lemma SameFront(x: Front, y: Front, more: string)
    requires x.scheme == y.scheme && x.slashes == y.slashes
    requires
      || (y.user == x.user && y.password == x.password && y.host == x.host + more)
      || y.Behind() == x.Behind() + more
    ensures y.Text() == x.Text() + more && y.Behind() == x.Behind() + more
  {
  }

  lemma PortSpelled(m: Machine, s: string, x: Front, d: string, ch: char) returns (e: string)
    requires m.Machine? && m.state in {PortOrPassword, Port} && Spelled(m, s, x, d)
    ensures m.Step(ch).Machine? ==> Spelled(m.Step(ch), s + [ch], x, e)
  {
    e := d + [ch];
    assert s + [ch] == x.Text() + ":" + e;
    assert e[|d|] == ch;
    assert !IsDigit(ch) ==> !AllDigits(e);
  }

  lemma PasswordSpelled(m: Machine, s: string, x: Front, d: string, ch: char) returns (y: Front, e: string)
    requires m.Machine? && m.state == Password && Spelled(m, s, x, d)
    ensures m.Step(ch).Machine? ==> Spelled(m.Step(ch), s + [ch], y, e)
  {
    e := d + [ch];
    if ch == '@' {
      y := Front(x.scheme, x.slashes, Some(x.host), Some(d), "");
      assert y.Behind() == x.Behind() + (":" + e);
      SameFront(x, y, ":" + e);
      assert s + [ch] == x.Text() + (":" + e);
    } else {
      y := x;
      assert s + [ch] == x.Text() + ":" + e;
      assert e[..|d|] == d;
    }
  }

  lemma {:induction false} Unspell(s: string) returns (x: Front, d: string)
    ensures var m := Run(START, s);
            m.Machine? ==> Spelled(m, s, x, d)
  {
    x, d := Front("", false, None, None, ""), "";
    if s != "" {
      var front, ch := s[..|s| - 1], s[|s| - 1];
      x, d := Unspell(front);
      RunSnoc(front, ch);
      assert front + [ch] == s;
      if Run(START, front).Machine? {
        x, d := StepSpelled(Run(START, front), front, x, d, ch);
      }
    }
  }

  lemma RunSnoc(s: string, ch: char)
    ensures var m := Run(START, s);
            Run(START, s + [ch]) == if m.Machine? then m.Step(ch) else m
  {
    RunAppend(START, s, [ch]);
    var m := Run(START, s);
    if m.Machine? {
      assert Run(m.Step(ch), [ch][1..]) == m.Step(ch);
    }
  }

  // Where the machine stopped.
  lemma {:induction false} StopPoint(s: string) returns (i: nat)
    requires !Run(START, s).Machine?
    ensures i < |s| && Run(START, s[..i]).Machine? && Run(START, s) == Run(START, s[..i]).Step(s[i])
  {
    hide Run;
    StartRuns();
    var front, ch := s[..|s| - 1], s[|s| - 1];
    RunSnoc(front, ch);
    assert front + [ch] == s;
    if Run(START, front).Machine? {
      i := |s| - 1;
    } else {
      i := StopPoint(front);
      assert front[..i] == s[..i];
    }
  }

  lemma StartRuns()
    ensures Run(START, "") == START
  {
  }

  lemma AbortSplits(s: string)
    requires Finish(Run(START, s)) == Abort
    ensures (exists x, digits, tail :: PortSplit(s, x, digits, tail)) || exists x, tail :: BracketSplit(s, x, tail)
  {
    hide Run;
    var i := |s|;
    if !Run(START, s).Machine? {
      i := StopPoint(s);
    }
    assert s[..|s|] == s;
    var x, d := Unspell(s[..i]);
    StopSplits(s, i, Run(START, s[..i]), x, d);
  }

  lemma StopSplits(s: string, i: nat, m: Machine, x: Front, d: string)
    requires i <= |s| && m.Machine? && Spelled(m, s[..i], x, d)
    requires i == |s| ==> m.portOrPass != ""
    requires i < |s| ==> m.Step(s[i]).Aborted? || (m.Step(s[i]).Invalid? && PortLeft(m.Step(s[i])) != "")
    ensures (exists x, digits, tail :: PortSplit(s, x, digits, tail)) || exists x, tail :: BracketSplit(s, x, tail)
  {
    assert s == s[..i] + s[i..];
    if m.state == IPV6Hostname {
      assert BracketSplit(s, x, s[i..]);
    } else {
      assert PortSplit(s, x, d, s[i..]);
    }
  }

  // ---- What a URL can hold, whatever the input.

  ghost predicate Legal(u: Url) {
    && AllPlain(Scheme, u.scheme) && AllPlain(UsernameOrHostname, u.username)
    && AllPlain(Password, u.password) && AllPlain(Hostname, u.hostname) && AllPlain(Port, u.port)
    && u.path != "" && u.path[0] == '/' && AllPlain(Path, u.path) && AllPlain(Query, u.query)
    && u.integerPort == Number(u.port) % 0x1_0000
  }

  // What the machine keeps while it runs. The accumulators hold at most one of port and password,
  // and nothing that is still to be filled has been filled before.
  ghost predicate Running(m: Machine) {
    m.Machine? ==>
      && Legal(m.url) && AllPlain(UsernameOrHostname, m.nameOrHost) && AllPlain(Port, m.portOrPass)
      && (m.state in {Scheme, SlashAfterScheme1, SlashAfterScheme2, UsernameOrHostname, PortOrPassword} ==>
            m.url.username == "" && m.url.password == "" && m.url.hostname == "" && m.url.port == "")
      && (m.state in {Password, Hostname, Port, IPV6Hostname} ==> m.nameOrHost == "" && m.url.port == "")
      && (m.state in {Path, Query, Fragment} ==> m.nameOrHost == "" && m.portOrPass == "")
      && (m.state in {Scheme, SlashAfterScheme1, SlashAfterScheme2, UsernameOrHostname, Password, Hostname} ==>
            m.portOrPass == "")
  }

  lemma StepKeepsRunning(m: Machine, ch: char)
    requires m.Machine? && Running(m)
    ensures Running(m.Step(ch))
  {
    match m.state
    case Scheme => StepFront(m, ch);
    case SlashAfterScheme1 => StepFront(m, ch);
    case SlashAfterScheme2 => StepFront(m, ch);
    case UsernameOrHostname => StepFront(m, ch);
    case PortOrPassword => StepPortOrPassword(m, ch);
    case Password => StepHost(m, ch);
    case Hostname => StepHost(m, ch);
    case IPV6Hostname => StepHost(m, ch);
    case Port => StepHost(m, ch);
    case _ => StepTail(m, ch);
  }

  lemma NoNumber()
    ensures Number("") == 0
  {
  }

  lemma StepFront(m: Machine, ch: char)
    requires m.Machine? && Running(m)
    requires m.state in {Scheme, SlashAfterScheme1, SlashAfterScheme2, UsernameOrHostname}
    ensures Running(m.Step(ch))
  {
    hide Number;
    NoNumber();
  }

  lemma StepPortOrPassword(m: Machine, ch: char)
    requires m.Machine? && Running(m) && m.state == PortOrPassword
    ensures Running(m.Step(ch))
  {
    hide Number;
    NoNumber();
  }

  lemma StepHost(m: Machine, ch: char)
    requires m.Machine? && Running(m) && m.state in {Password, Hostname, IPV6Hostname, Port}
    ensures Running(m.Step(ch))
  {
    hide Number;
  }

  lemma StepTail(m: Machine, ch: char)
    requires m.Machine? && Running(m) && m.state in {Path, Query, Fragment}
    ensures Running(m.Step(ch))
  {
  }

  lemma {:induction false} RunKeepsRunning(m: Machine, s: string)
    requires Running(m)
    ensures Running(Run(m, s))
    decreases |s|
  {
    if s != "" && m.Machine? {
      StepKeepsRunning(m, s[0]);
      RunKeepsRunning(m.Step(s[0]), s[1..]);
    }
  }

  // A URL that is accepted has legal parts only, for every input string.
  lemma AcceptedIsLegal(s: string)
    ensures var o := Finish(Run(START, s));
            o.Valid? ==> Legal(o.url)
  {
    assert Number("") == 0;
    RunKeepsRunning(START, s);
  }
}
