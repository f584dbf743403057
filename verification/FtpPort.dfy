/** socket++/ftp.cpp, useraddr: the argument of PORT, built in place in a C string, and a parser for it
    written from section 4.1.2 of RFC 959. */
module FtpPort {
  import opened Lines

  // ---------------------------------------------------------------- decimal numbers

  function Digit(d: nat): char
    requires d < 10
  {
    '0' + d as char
  }

  /** What %d prints. */
  function Decimal(n: nat): (s: seq<char>)
    ensures s != [] && forall i :: 0 <= i < |s| ==> '0' <= s[i] <= '9'
  {
    if n < 10 then [Digit(n)] else Decimal(n / 10) + [Digit(n % 10)]
  }

  /** The number a nonempty string of digits denotes. */
  function Number(s: seq<char>): Option<nat> {
    if s == [] then None
    else
      var d := s[|s| - 1];
      if !('0' <= d <= '9') then None
      else if |s| == 1 then Some(d as nat - '0' as nat)
      else
        match Number(s[..|s| - 1])
        case None => None
        case Some(n) => Some(n * 10 + (d as nat - '0' as nat))
  }

  lemma {:induction false} NumberDecimal(n: nat)
    ensures Number(Decimal(n)) == Some(n)
  {
    if n < 10 {
    } else {
      NumberDecimal(n / 10);
      assert Decimal(n)[..|Decimal(n)| - 1] == Decimal(n / 10);
    }
  }

  // ---------------------------------------------------------------- fields

  /** s cut at every separator. */
  function Split(s: seq<char>, sep: char): (fields: seq<seq<char>>)
    ensures fields != []
  {
    if s == [] then [[]]
    else
      var rest := Split(s[1..], sep);
      if s[0] == sep then [[]] + rest else [[s[0]] + rest[0]] + rest[1..]
  }

  lemma {:induction false} SplitField(field: seq<char>, rest: seq<char>, sep: char)
    requires sep !in field
    ensures Split(field + [sep] + rest, sep) == [field] + Split(rest, sep)
  {
    var s := field + [sep] + rest;
    if field == [] {
      assert s[0] == sep && s[1..] == rest;
    } else {
      SplitField(field[1..], rest, sep);
      assert s[0] == field[0] && s[1..] == field[1..] + [sep] + rest;
      assert Split(s[1..], sep)[1..] == Split(rest, sep);
      assert [field[0]] + field[1..] == field;
    }
  }

  lemma {:induction false} SplitLast(field: seq<char>, sep: char)
    requires sep !in field
    ensures Split(field, sep) == [field]
  {
    if field == [] {
    } else {
      SplitLast(field[1..], sep);
      assert [field[0]] + field[1..] == field;
    }
  }

  /** h1,h2,h3,h4,p1,p2: the numbers, if there are six of them and each fits a byte. */
  function ParsePort(arg: seq<char>): Option<seq<nat>> {
    var fields := Split(arg, ',');
    if |fields| == 6 && forall i :: 0 <= i < 6 ==> Number(fields[i]).Some? && Number(fields[i]).value < 256
    then Some(seq(6, i requires 0 <= i < 6 => if Number(fields[i]).Some? then Number(fields[i]).value else 0))
    else None
  }

  // ---------------------------------------------------------------- the text that is built

  function Join(a: nat, b: nat, c: nat, d: nat, sep: char): seq<char> {
    Decimal(a) + [sep] + (Decimal(b) + [sep] + (Decimal(c) + [sep] + Decimal(d)))
  }

  /** inet_ntoa. */
  function Dotted(h: seq<nat>): seq<char>
    requires |h| == 4
  {
    Join(h[0], h[1], h[2], h[3], '.')
  }

  function Commas(s: seq<char>): (t: seq<char>)
    ensures |t| == |s|
  {
    seq(|s|, i requires 0 <= i < |s| => if s[i] == '.' then ',' else s[i])
  }

  /** What useraddr hands to send_cmd. */
  function PortArg(h: seq<nat>, port: nat): seq<char>
    requires |h| == 4
  {
    Commas(Dotted(h)) + "," + Decimal(port / 256) + "," + Decimal(port % 256)
  }

  lemma CommasField(field: seq<char>, rest: seq<char>)
    requires '.' !in field
    ensures Commas(field + ['.'] + rest) == field + [','] + Commas(rest)
  {
  }

  lemma CommasLast(field: seq<char>)
    requires '.' !in field
    ensures Commas(field) == field
  {
  }

  lemma CommasDotted(h: seq<nat>)
    requires |h| == 4
    ensures Commas(Dotted(h)) == Join(h[0], h[1], h[2], h[3], ',')
  {
    hide Decimal, Commas;
    CommasField(Decimal(h[0]), Decimal(h[1]) + ['.'] + (Decimal(h[2]) + ['.'] + Decimal(h[3])));
    CommasField(Decimal(h[1]), Decimal(h[2]) + ['.'] + Decimal(h[3]));
    CommasField(Decimal(h[2]), Decimal(h[3]));
    CommasLast(Decimal(h[3]));
  }

  lemma PortFields(h: seq<nat>, port: nat)
    requires |h| == 4
    ensures Split(PortArg(h, port), ',')
         == [Decimal(h[0]), Decimal(h[1]), Decimal(h[2]), Decimal(h[3]), Decimal(port / 256), Decimal(port % 256)]
  {
    hide Decimal, Commas, Split;
    CommasDotted(h);
    var d, p1, p2 := Decimal(h[3]), Decimal(port / 256), Decimal(port % 256);
    var last := d + [','] + (p1 + [','] + p2);
    assert PortArg(h, port) == Decimal(h[0]) + [','] + (Decimal(h[1]) + [','] + (Decimal(h[2]) + [','] + last));
    SplitField(Decimal(h[0]), Decimal(h[1]) + [','] + (Decimal(h[2]) + [','] + last), ',');
    SplitField(Decimal(h[1]), Decimal(h[2]) + [','] + last, ',');
    SplitField(Decimal(h[2]), last, ',');
    SplitThree(d, p1, p2);
  }

  lemma SplitThree(a: seq<char>, b: seq<char>, c: seq<char>)
    requires ',' !in a && ',' !in b && ',' !in c
    ensures Split(a + [','] + (b + [','] + c), ',') == [a, b, c]
  {
    hide Split;
    SplitField(a, b + [','] + c, ',');
    SplitField(b, c, ',');
    SplitLast(c, ',');
  }

  /** The argument parses back to the address and the port. */
  lemma PortRoundTrip(h: seq<nat>, port: nat)
    requires |h| == 4 && (forall i :: 0 <= i < 4 ==> h[i] < 256) && port < 65536
    ensures ParsePort(PortArg(h, port)) == Some(h + [port / 256, port % 256])
    ensures port / 256 * 256 + port % 256 == port
  {
    var fields, want := Split(PortArg(h, port), ','), h + [port / 256, port % 256];
    PortFields(h, port);
    hide Decimal, Split, PortArg;
    forall i | 0 <= i < 6 ensures Number(fields[i]) == Some(want[i]) {
      assert fields[i] == Decimal(want[i]);
      NumberDecimal(want[i]);
    }
    hide Number;
    assert ParsePort(PortArg(h, port)).Some?;
    assert ParsePort(PortArg(h, port)).value == want;
  }

  /** A byte is printed with up to three digits, without leading zeros. */
  lemma ByteDecimal(n: nat)
    requires n < 256
    ensures Decimal(n) == if n < 10 then ['0' + n as char]
                          else if n < 100 then ['0' + (n / 10) as char, '0' + (n % 10) as char]
                          else ['0' + (n / 100) as char, '0' + (n / 10 % 10) as char, '0' + (n % 10) as char]
  {
    if n >= 10 {
      assert Decimal(n) == Decimal(n / 10) + [Digit(n % 10)];
      if n >= 100 {
        assert n / 10 / 10 == n / 100 < 10;
        assert Decimal(n / 10) == Decimal(n / 100) + [Digit(n / 10 % 10)];
      }
    }
  }

  lemma ByteLength(n: nat)
    requires n < 256
    ensures |Decimal(n)| <= 3
  {
    ByteDecimal(n);
    hide Decimal;
  }

  lemma ExampleBytes()
    ensures Decimal(10) == "10" && Decimal(0) == "0" && Decimal(5) == "5" && Decimal(39) == "39" && Decimal(16) == "16"
  {
    hide Decimal;
    ByteDecimal(10);
    ByteDecimal(0);
    ByteDecimal(5);
    ByteDecimal(39);
    ByteDecimal(16);
  }

  lemma ExampleJoined()
    ensures "10" + [','] + ("0" + [','] + ("0" + [','] + "5")) + "," + "39" + "," + "16" == "10,0,0,5,39,16"
  {
  }

  lemma PortExample()
    ensures PortArg([10, 0, 0, 5], 10000) == "10,0,0,5,39,16"
  {
    hide Decimal, Commas, Dotted;
    assert 10000 / 256 == 39 && 10000 % 256 == 16;
    CommasDotted([10, 0, 0, 5]);
    ExampleBytes();
    ExampleJoined();
  }

  /** char addr [80] is large enough. */
  lemma PortArgFits(h: seq<nat>, port: nat)
    requires |h| == 4 && (forall i :: 0 <= i < 4 ==> h[i] < 256) && port < 65536
    ensures |Dotted(h)| <= 15 && |PortArg(h, port)| <= 23
  {
    ByteLength(h[0]);
    ByteLength(h[1]);
    ByteLength(h[2]);
    ByteLength(h[3]);
    ByteLength(port / 256);
    ByteLength(port % 256);
    hide Decimal;
  }

  // ---------------------------------------------------------------- C strings

  /** The C string at the start of a is s. */
  ghost predicate CString(a: array<char>, s: seq<char>)
    reads a
  {
    |s| < a.Length && a[..|s|] == s && a[|s|] == '\0' && '\0' !in s
  }

  lemma CStringChars(a: array<char>, s: seq<char>)
    requires CString(a, s)
    ensures forall i :: 0 <= i < |s| ==> a[i] == s[i] != '\0'
  {
    assert forall i :: 0 <= i < |s| ==> a[i] == a[..|s|][i];
  }

  method Strlen(a: array<char>, ghost s: seq<char>) returns (n: nat)
    requires CString(a, s)
    ensures n == |s|
  {
    CStringChars(a, s);
    n := 0;
    while a[n] != '\0'
      invariant n <= |s|
      decreases |s| - n
    {
      n := n + 1;
    }
  }

  /** The index of the first c, or -1 for a null pointer. */
  method Strchr(a: array<char>, c: char, ghost s: seq<char>) returns (p: int)
    requires CString(a, s) && c != '\0'
    ensures p == -1 ==> c !in s
    ensures p != -1 ==> 0 <= p < |s| && s[p] == c && c !in s[..p]
  {
    CStringChars(a, s);
    var i := 0;
    while a[i] != '\0'
      invariant i <= |s| && c !in s[..i]
      decreases |s| - i
    {
      if a[i] == c {
        return i;
      }
      assert s[..i + 1] == s[..i] + [s[i]];
      i := i + 1;
    }
    assert s[..i] == s;
    return -1;
  }

  /** strcpy and sprintf ("%s"): stores text and a NUL from off on. */
  method Store(a: array<char>, off: nat, text: seq<char>)
    requires off + |text| < a.Length
    modifies a
    ensures a[..off] == old(a[..off]) && a[off..off + |text|] == text && a[off + |text|] == '\0'
  {
    forall i | 0 <= i < |text| {
      a[off + i] := text[i];
    }
    a[off + |text|] := '\0';
  }

  /** Again and again the C string's first period is looked for, and overwritten. */
  method DotsToCommas(a: array<char>, ghost s: seq<char>)
    requires CString(a, s)
    modifies a
    ensures CString(a, Commas(s))
  {
    ghost var cur, done := s, 0;
    var p := Strchr(a, '.', cur);
    while p != -1
      invariant CString(a, cur) && |cur| == |s| && Commas(cur) == Commas(s)
      invariant done <= |s| && forall j :: 0 <= j < done ==> cur[j] != '.'
      invariant p == -1 ==> '.' !in cur
      invariant p != -1 ==> 0 <= p < |s| && cur[p] == '.' && '.' !in cur[..p]
      decreases |s| - done, if p == -1 then 0 else 1
    {
      a[p] := ',';
      ghost var next := cur[p := ','];
      assert a[..|s|] == next;
      assert forall j :: 0 <= j < p ==> cur[j] == cur[..p][j] != '.';
      cur, done := next, p + 1;
      p := Strchr(a, '.', cur);
    }
    assert Commas(cur) == cur;
  }

  /** Prints text where the C string ends. */
  method Append(a: array<char>, text: seq<char>, ghost s: seq<char>)
    requires CString(a, s) && |s| + |text| < a.Length && '\0' !in text
    modifies a
    ensures CString(a, s + text)
  {
    var n := Strlen(a, s);
    Store(a, n, text);
    assert a[..n + |text|] == a[..n] + a[n..n + |text|] == s + text;
  }

  /** The part of useraddr between inet_ntoa and send_cmd. */
  method BuildPortArg(h: seq<nat>, port: nat) returns (arg: seq<char>)
    requires |h| == 4 && (forall i :: 0 <= i < 4 ==> h[i] < 256) && port < 65536
    ensures arg == PortArg(h, port)
  {
    hide Decimal, Dotted, Commas;
    var tail := "," + Decimal(port / 256) + "," + Decimal(port % 256);
    PortArgFits(h, port);
    NoNul(h, port);
    assert PortArg(h, port) == Commas(Dotted(h)) + tail;
    var addr := new char[80];
    Store(addr, 0, Dotted(h));
    assert addr[..|Dotted(h)|] == addr[0..|Dotted(h)|];
    DotsToCommas(addr, Dotted(h));
    Append(addr, tail, Commas(Dotted(h)));
    var n := Strlen(addr, PortArg(h, port));
    return addr[..n];
  }

  lemma NoNul(h: seq<nat>, port: nat)
    requires |h| == 4
    ensures '\0' !in Dotted(h) && '\0' !in PortArg(h, port)
  {
    hide Decimal;
  }
}
