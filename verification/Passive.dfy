/**
  The reply to PASV (section 4.1.2 of RFC 959): printed by `send_passive`
  (src/Server/FTP_server/connect/Dataconnect.cc) and scanned by `openPassiveMode`
  (src/Client/UserFile/FTP_client.cc).
*/
module Passive {
  import opened Names

  // ---------- printing ----------

  predicate IsDigit(c: char) {
    '0' <= c <= '9'
  }

  function Digit(n: nat): (c: char)
    requires n < 10
    ensures IsDigit(c) && c as int - '0' as int == n
  {
    ('0' as int + n) as char
  }

  /** An integer as `operator<<` prints it. */
  function Dec(n: nat): (s: string)
    ensures |s| > 0 && forall i | 0 <= i < |s| :: IsDigit(s[i])
  {
    if n < 10 then [Digit(n)] else Dec(n / 10) + [Digit(n % 10)]
  }

  /** Reading digits from the left, as the client does. */
  function Value(s: string): nat
    requires forall i | 0 <= i < |s| :: IsDigit(s[i])
  {
    if |s| == 0 then 0
    else
      assert IsDigit(s[|s| - 1]);
      Value(s[..|s| - 1]) * 10 + (s[|s| - 1] as int - '0' as int)
  }

  lemma {:induction false} ValueUndoesDec(n: nat)
    ensures Value(Dec(n)) == n
  {
    if n >= 10 {
      ValueUndoesDec(n / 10);
      assert Dec(n)[..|Dec(n)| - 1] == Dec(n / 10);
    } else {
      assert Dec(n)[..0] == "";
    }
  }

  function Pow10(n: nat): nat {
    if n == 0 then 1 else 10 * Pow10(n - 1)
  }

  /** Decimal notation: the digit in front of n others weighs ten to the n. */
  lemma {:induction false} FirstDigitWeighs(c: char, s: string)
    requires IsDigit(c) && forall i | 0 <= i < |s| :: IsDigit(s[i])
    ensures Value([c] + s) == (c as int - '0' as int) * Pow10(|s|) + Value(s)
    decreases |s|
  {
    if |s| == 0 {
      assert [c] + s == [c] && [c][..0] == "";
    } else {
      var init := s[..|s| - 1];
      assert ([c] + s)[..|s|] == [c] + init;
      FirstDigitWeighs(c, init);
      Distribute(c as int - '0' as int, Pow10(|init|), Value(init));
    }
  }

  lemma Distribute(d: int, p: int, v: int)
    ensures (d * p + v) * 10 == d * (10 * p) + v * 10
  {
  }

  datatype Address = Address(a: nat, b: nat, c: nat, d: nat)

  predicate IsAddress(h: Address) {
    h.a < 256 && h.b < 256 && h.c < 256 && h.d < 256
  }

  const GREETING := "227 Entering Passive Mode "

  /** The four address numbers with a separator. */
  function Host(h: Address, sep: char): string {
    Dec(h.a) + [sep] + Dec(h.b) + [sep] + Dec(h.c) + [sep] + Dec(h.d)
  }

  /** The text that `send_passive` builds. */
  function Reply(h: Address, port: nat): string {
    GREETING + "(" + Host(h, ',') + "," + Dec(port / 256) + "," + Dec(port % 256) + ")"
  }

  method SendPassive(h: Address, port: nat) returns (oss: string)
    requires IsAddress(h) && port < 65536
    ensures oss == Reply(h, port)
  {
    var p1, p2 := port / 256, port % 256;
    oss := "227 Entering Passive Mode (" + Dec(h.a);
    oss := oss + "," + Dec(h.b);
    oss := oss + "," + Dec(h.c);
    oss := oss + "," + Dec(h.d);
    oss := oss + "," + Dec(p1);
    oss := oss + "," + Dec(p2);
    oss := oss + ")";
    hide Dec;
    assert "227 Entering Passive Mode (" == GREETING + "(";
    assert oss == Reply(h, port);
  }

  // ---------- the numbers in the text ----------

  /** The parts of a string between separators. */
  function Fields(s: string, sep: char): seq<string>
    decreases |s|
  {
    var p := FirstOf(s, sep);
    if p == |s| then [s] else [s[..p]] + Fields(s[p + 1..], sep)
  }

  lemma FirstField(x: string, sep: char, y: string)
    requires NoChar(x, sep)
    ensures Fields(x + [sep] + y, sep) == [x] + Fields(y, sep)
    ensures Fields(x, sep) == [x]
  {
    hide FirstOf;
    FirstOfIs(x, sep, y);
    var s := x + [sep] + y;
    assert s[..|x|] == x && s[|x| + 1..] == y;
  }

  lemma FourFields(a: string, b: string, c: string, d: string, sep: char)
    requires NoChar(a, sep) && NoChar(b, sep) && NoChar(c, sep)
    ensures Fields(a + [sep] + (b + [sep] + (c + [sep] + d)), sep) == [a, b, c] + Fields(d, sep)
  {
    hide NoChar, Fields;
    FirstField(a, sep, b + [sep] + (c + [sep] + d));
    FirstField(b, sep, c + [sep] + d);
    FirstField(c, sep, d);
  }

  /** Digits that stand for a number. */
  predicate Stands(t: string, n: nat) {
    |t| > 0 && (forall i | 0 <= i < |t| :: IsDigit(t[i])) && Value(t) == n
  }

  lemma DecStands(n: nat)
    ensures Stands(Dec(n), n) && NoChar(Dec(n), ',') && NoChar(Dec(n), '.')
  {
    ValueUndoesDec(n);
  }

  /** A dotted address is its four numbers, most significant first, between dots. */
  lemma HostNumbers(h: Address, sep: char)
    requires sep == ',' || sep == '.'
    ensures var fs := Fields(Host(h, sep), sep);
            |fs| == 4 && Stands(fs[0], h.a) && Stands(fs[1], h.b) && Stands(fs[2], h.c) && Stands(fs[3], h.d)
  {
    DecStands(h.a);
    DecStands(h.b);
    DecStands(h.c);
    DecStands(h.d);
    hide Dec, Stands, NoChar, Fields;
    Regroup(Dec(h.a), Dec(h.b), Dec(h.c), Dec(h.d), sep);
    FourFields(Dec(h.a), Dec(h.b), Dec(h.c), Dec(h.d), sep);
    FirstField(Dec(h.d), sep, "");
  }

  lemma Regroup(a: string, b: string, c: string, d: string, sep: char)
    ensures a + [sep] + b + [sep] + c + [sep] + d == a + [sep] + (b + [sep] + (c + [sep] + d))
  {
    var s := [sep];
    assert a + s + b + s == a + s + (b + s);
    assert a + s + (b + s) + c + s == a + s + (b + s + (c + s));
    assert b + s + (c + s) + d == b + s + (c + s + d);
  }

  /** The reply has code 227 and, in parentheses, the numbers of the address and then those of the port,
      high part first (section 4.1.2 of RFC 959). */
  lemma ReplyNumbers(h: Address, port: nat)
    requires IsAddress(h) && port < 65536
    ensures var text := Reply(h, port);
            && |text| > 28 && text[..27] == "227 Entering Passive Mode (" && text[|text| - 1] == ')'
            && var fs := Fields(text[27..|text| - 1], ',');
               && |fs| == 6 && Stands(fs[0], h.a) && Stands(fs[1], h.b) && Stands(fs[2], h.c) && Stands(fs[3], h.d)
               && Stands(fs[4], port / 256) && Stands(fs[5], port % 256)
  {
    DecStands(h.a);
    DecStands(h.b);
    DecStands(h.c);
    DecStands(h.d);
    DecStands(port / 256);
    DecStands(port % 256);
    hide Dec, Stands, NoChar, Fields, Reply;
    var a, b, c, d, e, f := Dec(h.a), Dec(h.b), Dec(h.c), Dec(h.d), Dec(port / 256), Dec(port % 256);
    var last := d + [','] + (e + [','] + f);
    ReplyText(h, port, a + [','] + (b + [','] + (c + [','] + last)));
    FourFields(a, b, c, last, ',');
    FirstField(d, ',', e + [','] + f);
    FirstField(e, ',', f);
    FirstField(f, ',', "");
  }

  lemma ReplyText(h: Address, port: nat, inner: string)
    requires inner == Dec(h.a) + "," + (Dec(h.b) + "," + (Dec(h.c) + "," + (Dec(h.d) + "," + (Dec(port / 256) + "," + Dec(port % 256)))))
    ensures Reply(h, port) == "227 Entering Passive Mode (" + inner + ")"
    ensures Reply(h, port)[..27] == "227 Entering Passive Mode (" && Reply(h, port)[27..|Reply(h, port)| - 1] == inner
  {
    hide Dec;
    var q := Dec(port / 256) + "," + Dec(port % 256);
    Regroup(Dec(h.a), Dec(h.b), Dec(h.c), Dec(h.d), ',');
    Regroup(Dec(h.a), Dec(h.b), Dec(h.c), Dec(h.d) + "," + q, ',');
    var host := Host(h, ',');
    assert inner == host + "," + q;
    var open := "227 Entering Passive Mode (";
    assert open == GREETING + "(";
    assert Reply(h, port) == open + (host + "," + q) + ")";
    Middle(open, inner, ")");
  }

  // ---------- the shape of the text ----------

  function Commas(s: string): nat {
    if |s| == 0 then 0 else Commas(s[..|s| - 1]) + (if s[|s| - 1] == ',' then 1 else 0)
  }

  /** Commas become dots. */
  function Dotted(s: string): (t: string)
    ensures |t| == |s| && forall i | 0 <= i < |s| :: t[i] == if s[i] == ',' then '.' else s[i]
  {
    seq(|s|, i requires 0 <= i < |s| => if s[i] == ',' then '.' else s[i])
  }

  lemma {:induction false} CommasConcat(s: string, t: string)
    ensures Commas(s + t) == Commas(s) + Commas(t)
    decreases |t|
  {
    if |t| == 0 {
      assert s + t == s;
    } else {
      assert (s + t)[..|s + t| - 1] == s + t[..|t| - 1];
      CommasConcat(s, t[..|t| - 1]);
    }
  }

  lemma {:induction false} NoCommas(s: string)
    requires NoChar(s, ',')
    ensures Commas(s) == 0
    decreases |s|
  {
    if |s| > 0 { NoCommas(s[..|s| - 1]); }
  }

  lemma {:induction false} CommasMonotone(s: string, n: nat)
    requires n < |s| && s[n] == ','
    ensures Commas(s[..n]) + 1 <= Commas(s)
  {
    assert s == s[..n] + s[n..];
    CommasConcat(s[..n], s[n..]);
    assert s[n..] == [','] + s[n + 1..];
    CommasConcat([','], s[n + 1..]);
  }

  predicate DigitsAndCommas(s: string) {
    forall i | 0 <= i < |s| :: IsDigit(s[i]) || s[i] == ','
  }

  /** One more number behind a comma. */
  lemma AddNumber(x: string, n: nat)
    requires DigitsAndCommas(x)
    ensures var s := x + [','] + Dec(n);
            Commas(s) == Commas(x) + 1 && Dotted(s) == Dotted(x) + ['.'] + Dec(n) && DigitsAndCommas(s)
  {
    var d := Dec(n);
    hide Dec;
    NoCommas(d);
    CommasConcat(x, [',']);
    CommasConcat(x + [','], d);
    assert Commas([',']) == 1;
  }

  lemma HostShape(h: Address)
    ensures Commas(Host(h, ',')) == 3 && Dotted(Host(h, ',')) == Host(h, '.') && DigitsAndCommas(Host(h, ','))
  {
    var a := Dec(h.a);
    hide Dec;
    NoCommas(a);
    assert Dotted(a) == a;
    hide Dotted, Commas;
    assert DigitsAndCommas(a);
    hide DigitsAndCommas;
    AddNumber(a, h.b);
    AddNumber(a + [','] + Dec(h.b), h.c);
    AddNumber(a + [','] + Dec(h.b) + [','] + Dec(h.c), h.d);
  }

  // ---------- scanning ----------

  /** `sizeof(ass)`: the size of the vector object, not of its contents. */
  const CLEARED := 24

  class FtpClient {
    var ass: array<char>
    var p1: nat
    var p2: nat

    constructor ()
      ensures fresh(ass) && ass.Length == 1024
    {
      ass := new char[1024];
    }

    /** The first inner loop: copies the address with dots for commas, up to the fourth comma. */
    method ScanHost(arr: seq<char>, start: nat, a: nat, ghost host: string) returns (i: nat)
      requires start + |host| < a <= |arr| && arr[start..start + |host|] == host && arr[start + |host|] == ','
      requires Commas(host) == 3 && DigitsAndCommas(host)
      requires |host| < ass.Length
      modifies ass
      ensures i == start + |host| + 1
      ensures ass[..|host|] == Dotted(host) && ass[|host|] == '\0'
    {
      i := start;
      var n, d := 0, 0;
      while i < a
        invariant i == start + n && n <= |host|
        invariant ass[..n] == Dotted(host)[..n]
        invariant d == Commas(host[..n])
        decreases a - i
      {
        assert host[..|host|] == host;
        assert n < |host| ==> arr[i] == arr[start..start + |host|][n] && host[..n + 1][..n] == host[..n];
        if arr[i] <= '9' && arr[i] >= '0' {
          ass[n] := arr[i];
          n := n + 1;
          i := i + 1;
        } else if arr[i] == ',' {
          if n < |host| { CommasMonotone(host, n); }
          if d == 3 {
            ass[n] := '\0';
            i := i + 1;
            break;
          }
          ass[n] := '.';
          n := n + 1;
          i := i + 1;
          d := d + 1;
        }
      }
    }

    /** The second inner loop: reads the two port numbers, up to the closing parenthesis. */
    method ScanPort(arr: seq<char>, start: nat, a: nat, ghost high: string, ghost low: string) returns (i: nat)
      requires start <= a < |arr| && arr[start..a] == high + "," + low + ")"
      requires |high| > 0 && forall k | 0 <= k < |high| :: IsDigit(high[k])
      requires |low| > 0 && forall k | 0 <= k < |low| :: IsDigit(low[k])
      requires p1 == 0 && p2 == 0
      modifies this`p1, this`p2
      ensures i == a - 1 && p1 == Value(high) && p2 == Value(low)
    {
      ghost var seg := high + "," + low + ")";
      ghost var comma := start + |high|;
      assert forall k | 0 <= k < |seg| :: arr[start + k] == arr[start..a][k] == seg[k];
      assert high[..|high|] == high && low[..|low|] == low;
      var t := 1;
      i := start;
      while i < a
        invariant t == 1 || t == 2
        invariant t == 1 ==> start <= i <= comma && p1 == Value(high[..i - start]) && p2 == 0
        invariant t == 2 ==> comma < i < a - 1 && p1 == Value(high) && p2 == Value(low[..i - comma - 1])
        decreases a - i
      {
        assert t == 1 && i < comma ==> arr[i] == seg[i - start] == high[i - start] && high[..i + 1 - start][..i - start] == high[..i - start];
        assert i == comma ==> arr[i] == ',';
        assert t == 2 ==> arr[i] == seg[i - start] == low[i - comma - 1] && low[..i - comma][..i - comma - 1] == low[..i - comma - 1];
        if arr[i] <= '9' && arr[i] >= '0' {
          if t == 1 {
            p1 := p1 * 10 + (arr[i] as int - '0' as int);
            i := i + 1;
          } else if t == 2 {
            p2 := p2 * 10 + (arr[i] as int - '0' as int);
            i := i + 1;
          }
        } else if arr[i] == ',' {
          t := 2;
          i := i + 1;
        }
        assert t == 1 ==> arr[i] == seg[i - start] != ')';
        assert t == 2 && i < a - 1 ==> arr[i] == seg[i - start] == low[i - comma - 1];
        assert arr[a - 1] == seg[|seg| - 1] == ')';
        if arr[i] == ')' { break; }
      }
    }

    /** The scan of any text with the parts of a reply. The outer loop looks at even positions only;
        the parenthesis is at one. */
    method Scan(arr: seq<char>, a: nat, ghost host: string, ghost high: string, ghost low: string)
      requires HasParts(arr, a, host, high, low) && |host| < ass.Length
      modifies this`p1, this`p2, ass
      ensures p1 == Value(high) && p2 == Value(low)
      ensures ass[..|host|] == Dotted(host) && ass[|host|] == '\0'
    {
      hide Dotted, Commas, Value, IsDigit, DigitsAndCommas;
      p1, p2 := 0, 0;
      forall k | 0 <= k < CLEARED && k < ass.Length { ass[k] := '\0'; }
      var i := 0;
      ghost var done := false;
      while i < a
        invariant 0 <= i <= a
        invariant !done ==> i % 2 == 0 && i <= 26 && p1 == 0 && p2 == 0
        invariant done ==> i == a && p1 == Value(high) && p2 == Value(low)
        invariant done ==> ass[..|host|] == Dotted(host) && ass[|host|] == '\0'
      {
        var c := arr[i];
        i := i + 1;
        if c == '(' {
          i := ScanHost(arr, i, a, host);
          i := ScanPort(arr, i, a, high, low);
          done := true;
        }
        i := i + 1;
      }
    }

    /** On the server's text, which a NUL follows in the buffer, the scan finds the server's address
        in dotted form and its port. */
    method OpenPassiveMode(text: string, ghost h: Address, ghost port: nat)
      requires IsAddress(h) && port < 65536 && text == Reply(h, port)
      requires ass.Length == 1024
      modifies this`p1, this`p2, ass
      ensures p1 * 256 + p2 == port
      ensures var n := |Host(h, '.')|; n < ass.Length && ass[..n] == Host(h, '.') && ass[n] == '\0'
    {
      ReplyShape(h, port);
      hide Reply, Dec, Host, HasParts, Value;
      Scan(text + ['\0'], |text|, Host(h, ','), Dec(port / 256), Dec(port % 256));
    }
  }

  /** A buffer holds 26 characters without a parenthesis, then "(host,high,low)", then more. */
  ghost predicate HasParts(arr: seq<char>, a: nat, host: string, high: string, low: string) {
    && 28 + |host| < a < |arr|
    && arr[26] == '(' && (forall k | 0 <= k < 26 :: arr[k] != '(')
    && arr[27..27 + |host|] == host && arr[27 + |host|] == ','
    && arr[28 + |host|..a] == high + "," + low + ")"
    && Commas(host) == 3 && DigitsAndCommas(host)
    && |high| > 0 && (forall k | 0 <= k < |high| :: IsDigit(high[k]))
    && |low| > 0 && (forall k | 0 <= k < |low| :: IsDigit(low[k]))
  }

  /** Slices of a concatenation of three. */
  lemma Middle(x: string, y: string, z: string)
    ensures (x + y + z)[|x|..|x| + |y|] == y
    ensures forall k | 0 <= k < |x| :: (x + y + z)[k] == x[k]
    ensures forall k | 0 <= k < |z| :: (x + y + z)[|x| + |y| + k] == z[k]
  {
  }

  lemma {:induction false} Slices(host: string, high: string, low: string)
    requires DigitsAndCommas(host)
    requires forall k | 0 <= k < |high| :: IsDigit(high[k])
    requires forall k | 0 <= k < |low| :: IsDigit(low[k])
    requires Commas(host) == 3 && |high| > 0 && |low| > 0
    ensures var text := GREETING + "(" + host + "," + high + "," + low + ")";
            HasParts(text + ['\0'], |text|, host, high, low)
  {
    hide Commas, IsDigit, DigitsAndCommas;
    var text := GREETING + "(" + host + "," + high + "," + low + ")";
    var last := high + "," + low + ")";
    var open := GREETING + "(";
    assert |open| == 27 && open[26] == '(' && forall k | 0 <= k < 26 :: open[k] != '(';
    assert text + ['\0'] == open + host + ("," + last + ['\0']) by { assert text == open + host + ("," + last); }
    Middle(open, host, "," + last + ['\0']);
    assert text + ['\0'] == (open + host + ",") + last + ['\0'] by { assert text == (open + host + ",") + last; }
    Middle(open + host + ",", last, ['\0']);
  }

  /** The server's text has these parts, the parenthesis at the even position 26. */
  lemma ReplyShape(h: Address, port: nat)
    requires IsAddress(h) && port < 65536
    ensures HasParts(Reply(h, port) + ['\0'], |Reply(h, port)|, Host(h, ','), Dec(port / 256), Dec(port % 256))
    ensures Dotted(Host(h, ',')) == Host(h, '.') && |Host(h, ',')| < 1024
    ensures Value(Dec(port / 256)) * 256 + Value(Dec(port % 256)) == port
  {
    hide HasParts, Dec, Commas, Value, Dotted, IsDigit, DigitsAndCommas;
    HostShape(h);
    ValueUndoesDec(port / 256);
    ValueUndoesDec(port % 256);
    ShortDec(h.a);
    ShortDec(h.b);
    ShortDec(h.c);
    ShortDec(h.d);
    Slices(Host(h, ','), Dec(port / 256), Dec(port % 256));
  }

  lemma ShortDec(n: nat)
    requires n < 256
    ensures |Dec(n)| <= 3
  {
    if n >= 100 {
      assert |Dec(n / 10 / 10)| == 1;
      assert |Dec(n / 10)| == 2;
    }
  }
}
