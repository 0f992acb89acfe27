/** formatBytes and formatUptime of internal/cli/system.go. */
module Format {
  import opened Text

  const LIMIT64: int := 0x1_0000_0000_0000_0000

  // ---- sizes ----

  function Pow1024(n: nat): (p: nat)
    ensures p >= 1
  {
    if n == 0 then 1 else 1024 * Pow1024(n - 1)
  }

  const UNITS := "KMGTPE"

  /** The power of 1024 that a unit letter stands for. */
  function UnitPower(unit: char): nat {
    match unit
    case 'K' => 1
    case 'M' => 2
    case 'G' => 3
    case 'T' => 4
    case 'P' => 5
    case 'E' => 6
    case _ => 0
  }

  lemma UnitLetters(e: nat)
    requires e < |UNITS|
    ensures UnitPower(UNITS[e]) == e + 1
  {
  }

  /** "%d B", or a quotient with a unit letter. The rounding of "%.1f" is not modelled. */
  datatype Size = Bytes(n: nat) | Scaled(dividend: nat, divisor: nat, unit: char)

  method FormatBytes(b: nat) returns (r: Size)
    requires b < LIMIT64
    ensures b < 1024 ==> r == Bytes(b)
    ensures b >= 1024 ==>
              exists e :: 0 <= e < |UNITS| && r == Scaled(b, Pow1024(e + 1), UNITS[e])
                          && Pow1024(e + 1) <= b < 1024 * Pow1024(e + 1)
    ensures b >= 1024 ==> r.dividend == b && r.divisor == Pow1024(UnitPower(r.unit))
  {
    if b < 1024 {
      return Bytes(b);
    }
    var div, exp := 1024, 0;
    var n := b / 1024;
    Powers();
    while n >= 1024
      invariant 0 <= exp < |UNITS| && div == Pow1024(exp + 1)
      invariant n == b / div && 1 <= n
      decreases n
    {
      NextUnit(b, div, exp);
      div := (div * 1024) % LIMIT64;
      exp := exp + 1;
      n := n / 1024;
    }
    QuotientBounds(b, div, n);
    assert div <= b < 1024 * div;
    UnitLetters(exp);
    return Scaled(b, div, UNITS[exp]);
  }

  lemma Powers()
    ensures Pow1024(1) == 1024 && Pow1024(6) == LIMIT64 / 16 && Pow1024(7) == 64 * LIMIT64
  {
    assert Pow1024(1) == 1024 * Pow1024(0);
    assert Pow1024(2) == 1024 * Pow1024(1);
    assert Pow1024(3) == 1024 * Pow1024(2);
    assert Pow1024(4) == 1024 * Pow1024(3);
    assert Pow1024(5) == 1024 * Pow1024(4);
    assert Pow1024(6) == 1024 * Pow1024(5);
    assert Pow1024(7) == 1024 * Pow1024(6);
  }

  lemma QuotientBounds(b: nat, div: nat, n: nat)
    requires div >= 1 && n == b / div
    ensures n * div <= b < (n + 1) * div
    ensures n >= 1 ==> div <= b
    ensures n < 1024 ==> b < 1024 * div
  {
    assert b == n * div + b % div;
    assert (n + 1) * div == n * div + div;
    if n >= 1 { MultipleAtLeast(n, div, 1); }
    if n < 1024 { MultipleAtLeast(1024, div, n + 1); }
  }

  lemma MultipleAtLeast(a: int, d: nat, c: int)
    requires a >= c
    ensures a * d >= c * d
  {
  }

  /** Another round of the loop neither overflows the divisor nor runs out of units. */
  lemma NextUnit(b: nat, div: nat, exp: nat)
    requires b < LIMIT64 && div == Pow1024(exp + 1) && exp < |UNITS| && b / div >= 1024
    ensures exp + 1 < |UNITS| && div * 1024 < LIMIT64 && div * 1024 == Pow1024(exp + 2)
    ensures b / (div * 1024) == (b / div) / 1024 && (b / div) / 1024 >= 1
  {
    QuotientBounds(b, div, b / div);
    MultipleAtLeast(b / div, div, 1024);
    Powers();
    NestedDivision(b, div);
  }

  lemma NestedDivision(b: nat, div: nat)
    requires div >= 1
    ensures b / (div * 1024) == (b / div) / 1024
  {
    var q, r := b / div, b % div;
    var q2, r2 := q / 1024, q % 1024;
    var d := div * 1024;
    assert b == q * div + r && q == q2 * 1024 + r2;
    assert q * div == q2 * 1024 * div + r2 * div by {
      assert (q2 * 1024 + r2) * div == q2 * 1024 * div + r2 * div;
    }
    assert q2 * 1024 * div == q2 * d;
    MultipleAtLeast(1023, div, r2);
    assert b == q2 * d + (r2 * div + r) && 0 <= r2 * div + r < d;
    QuotientUnique(b, d, q2, r2 * div + r);
  }

  lemma QuotientUnique(b: nat, d: nat, q: int, r: int)
    requires b == q * d + r && 0 <= r < d
    ensures b / d == q
  {
    var q', r' := b / d, b % d;
    assert b == q' * d + r';
    assert (q' + 1) * d == q' * d + d && (q + 1) * d == q * d + d;
    if q' < q {
      MultipleAtLeast(q, d, q' + 1);
    } else if q' > q {
      MultipleAtLeast(q', d, q + 1);
    }
  }

  /** The unit is the only one that keeps the quotient between 1 and 1024. */
  lemma UnitUnique(b: nat, e1: nat, e2: nat)
    requires Pow1024(e1) <= b < 1024 * Pow1024(e1)
    requires Pow1024(e2) <= b < 1024 * Pow1024(e2)
    ensures e1 == e2
  {
    NoSmallerUnit(b, e1, e2);
    NoSmallerUnit(b, e2, e1);
  }

  lemma NoSmallerUnit(b: nat, e1: nat, e2: nat)
    requires b < 1024 * Pow1024(e1) && Pow1024(e2) <= b
    ensures e2 <= e1
  {
    if e1 < e2 { PowerGrows(e1 + 1, e2); }
  }

  lemma {:induction false} PowerGrows(a: nat, b: nat)
    requires a <= b
    ensures Pow1024(a) <= Pow1024(b)
  {
    if a == b {
    } else {
      PowerGrows(a, b - 1);
    }
  }

  // ---- uptimes ----

  function Digit(d: nat): char
    requires d < 10
  {
    ('0' as int + d) as char
  }

  /** "%d". */
  function Itoa(n: nat): (s: string)
    ensures s != "" && forall i :: 0 <= i < |s| ==> '0' <= s[i] <= '9'
  {
    if n < 10 then [Digit(n)] else Itoa(n / 10) + [Digit(n % 10)]
  }

  function Atoi(s: string): nat
    requires forall i :: 0 <= i < |s| ==> '0' <= s[i] <= '9'
  {
    if s == "" then 0 else 10 * Atoi(s[..|s| - 1]) + (s[|s| - 1] as int - '0' as int)
  }

  lemma {:induction false} AtoiItoa(n: nat)
    ensures Atoi(Itoa(n)) == n
  {
    if n >= 10 {
      AtoiItoa(n / 10);
      assert Itoa(n)[..|Itoa(n)| - 1] == Itoa(n / 10);
    } else {
      assert Itoa(n)[..0] == "";
    }
  }

  /** The fields that are printed: days and hours are left out when they and everything before them are zero. */
  function UptimeFields(d: nat, h: nat, m: nat, s: nat): seq<string> {
    if d > 0 then [Itoa(d) + "d", Itoa(h) + "h", Itoa(m) + "m", Itoa(s) + "s"]
    else if h > 0 then [Itoa(h) + "h", Itoa(m) + "m", Itoa(s) + "s"]
    else [Itoa(m) + "m", Itoa(s) + "s"]
  }

  /** Days are printed from one day on, hours from one hour on, minutes and seconds always. */
  lemma UptimeShape(d: nat, h: nat, m: nat, s: nat)
    ensures var all := [Itoa(d) + "d", Itoa(h) + "h", Itoa(m) + "m", Itoa(s) + "s"];
            UptimeFields(d, h, m, s) == if d >= 1 then all else if h >= 1 then all[1..] else all[2..]
  {
  }

  method FormatUptime(uptime: nat) returns (r: string, ghost d: nat, ghost h: nat, ghost m: nat, ghost s: nat)
    ensures uptime == 86400 * d + 3600 * h + 60 * m + s && h < 24 && m < 60 && s < 60
    ensures r == Join(UptimeFields(d, h, m, s), " ")
    ensures ReadUptime(r) == uptime
    ensures |White.Fields(r)| == if uptime >= 86400 then 4 else if uptime >= 3600 then 3 else 2
  {
    var secs := uptime;
    var days := secs / 86400;
    secs := secs % 86400;
    var hours := secs / 3600;
    secs := secs % 3600;
    var minutes := secs / 60;
    var seconds := secs % 60;
    d, h, m, s := days, hours, minutes, seconds;
    if days > 0 {
      r := Itoa(days) + "d" + " " + (Itoa(hours) + "h") + " " + (Itoa(minutes) + "m") + " " + (Itoa(seconds) + "s");
    } else if hours > 0 {
      r := Itoa(hours) + "h" + " " + (Itoa(minutes) + "m") + " " + (Itoa(seconds) + "s");
    } else {
      r := Itoa(minutes) + "m" + " " + (Itoa(seconds) + "s");
    }
    JoinWords(Itoa(d) + "d", Itoa(h) + "h", Itoa(m) + "m", Itoa(s) + "s");
    UptimeReadsBack(d, h, m, s);
    UptimeWords(d, h, m, s);
  }

  lemma UptimeWords(d: nat, h: nat, m: nat, s: nat)
    ensures White.Fields(Join(UptimeFields(d, h, m, s), " ")) == UptimeFields(d, h, m, s)
  {
    FieldSeconds(d, 'd');
    FieldSeconds(h, 'h');
    FieldSeconds(m, 'm');
    FieldSeconds(s, 's');
    White.FieldsJoin(UptimeFields(d, h, m, s), ' ');
  }

  lemma JoinWords(a: string, b: string, x: string, y: string)
    ensures Join([x, y], " ") == x + " " + y
    ensures Join([b, x, y], " ") == b + " " + x + " " + y
    ensures Join([a, b, x, y], " ") == a + " " + b + " " + x + " " + y
  {
    assert [x, y][1..] == [y] && [b, x, y][1..] == [x, y] && [a, b, x, y][1..] == [b, x, y];
    assert Join([y], " ") == y;
    assert b + " " + (x + " " + y) == b + " " + x + " " + y;
    assert a + " " + (b + " " + x + " " + y) == a + " " + b + " " + x + " " + y;
  }

  /** The seconds that a field such as "3h" stands for. */
  function Seconds(field: string): nat {
    if field == "" || !(forall i :: 0 <= i < |field| - 1 ==> '0' <= field[i] <= '9') then 0
    else
      var n := Atoi(field[..|field| - 1]);
      match field[|field| - 1]
      case 'd' => 86400 * n
      case 'h' => 3600 * n
      case 'm' => 60 * n
      case _ => n
  }

  function TotalSeconds(fields: seq<string>): nat {
    if fields == [] then 0 else Seconds(fields[0]) + TotalSeconds(fields[1..])
  }

  function ReadUptime(text: string): nat { TotalSeconds(White.Fields(text)) }

  lemma FieldSeconds(n: nat, unit: char)
    requires unit in {'d', 'h', 'm', 's'}
    ensures White.Token(Itoa(n) + [unit])
    ensures Seconds(Itoa(n) + [unit]) ==
            n * (if unit == 'd' then 86400 else if unit == 'h' then 3600 else if unit == 'm' then 60 else 1)
  {
    AtoiItoa(n);
    var field := Itoa(n) + [unit];
    assert field[..|field| - 1] == Itoa(n);
  }

  lemma UptimeReadsBack(d: nat, h: nat, m: nat, s: nat)
    ensures ReadUptime(Join(UptimeFields(d, h, m, s), " ")) == 86400 * d + 3600 * h + 60 * m + s
  {
    FieldSeconds(d, 'd');
    FieldSeconds(h, 'h');
    FieldSeconds(m, 'm');
    FieldSeconds(s, 's');
    var fields := UptimeFields(d, h, m, s);
    White.FieldsJoin(fields, ' ');
    var a, b, x, y := Itoa(d) + "d", Itoa(h) + "h", Itoa(m) + "m", Itoa(s) + "s";
    assert [y][1..] == [] && [x, y][1..] == [y] && [b, x, y][1..] == [x, y] && [a, b, x, y][1..] == [b, x, y];
    assert TotalSeconds([y]) == Seconds(y);
    assert TotalSeconds([x, y]) == Seconds(x) + Seconds(y);
    assert TotalSeconds([b, x, y]) == Seconds(b) + TotalSeconds([x, y]);
  }
}
