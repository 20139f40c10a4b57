/** Python's str.join, str.split, decimal numbers and dotted quads, with their round trips. */
module TextFields {
  import opened Wrappers

  // ---------------------------------------------------------------- join and split

  function Join(parts: seq<string>, sep: char): string {
    if |parts| == 0 then "" else if |parts| == 1 then parts[0] else parts[0] + [sep] + Join(parts[1..], sep)
  }

  function Split(s: string, sep: char): (parts: seq<string>)
    ensures |parts| >= 1
  {
    if s == "" then [""]
    else if s[0] == sep then [""] + Split(s[1..], sep)
    else
      var rest := Split(s[1..], sep);
      [[s[0]] + rest[0]] + rest[1..]
  }

  predicate Free(parts: seq<string>, sep: char) {
    forall i :: 0 <= i < |parts| ==> sep !in parts[i]
  }

  lemma {:induction false} SplitOne(s: string, sep: char)
    requires sep !in s
    ensures Split(s, sep) == [s]
  {
    if s != "" {
      assert s[0] in s && forall c :: c in s[1..] ==> c in s;
      SplitOne(s[1..], sep);
      assert [s[0]] + s[1..] == s;
    }
  }

  lemma {:induction false} SplitFirst(first: string, sep: char, rest: string)
    requires sep !in first
    ensures Split(first + [sep] + rest, sep) == [first] + Split(rest, sep)
  {
    var s := first + [sep] + rest;
    if first == "" {
      assert s[0] == sep && s[1..] == rest;
    } else {
      assert first[0] in first && forall c :: c in first[1..] ==> c in first;
      assert s[1..] == first[1..] + [sep] + rest;
      SplitFirst(first[1..], sep, rest);
      assert [first[0]] + first[1..] == first;
      assert ([first[1..]] + Split(rest, sep))[1..] == Split(rest, sep);
    }
  }

  /** Splitting what was joined gives the parts back, if none holds the separator. */
  lemma {:induction false} SplitOfJoin(parts: seq<string>, sep: char)
    requires parts != [] && Free(parts, sep)
    ensures Split(Join(parts, sep), sep) == parts
  {
    assert sep !in parts[0];
    if |parts| == 1 {
      SplitOne(parts[0], sep);
    } else {
      assert forall i :: 0 <= i < |parts| - 1 ==> parts[1..][i] == parts[i + 1];
      SplitOfJoin(parts[1..], sep);
      SplitFirst(parts[0], sep, Join(parts[1..], sep));
    }
  }

  lemma JoinFront(c: char, parts: seq<string>, sep: char)
    requires parts != []
    ensures Join([[c] + parts[0]] + parts[1..], sep) == [c] + Join(parts, sep)
  {
    var all := [[c] + parts[0]] + parts[1..];
    assert all[1..] == parts[1..];
    if |parts| > 1 {
      var rest := Join(parts[1..], sep);
      assert Join(all, sep) == [c] + parts[0] + [sep] + rest;
      assert [c] + (parts[0] + [sep] + rest) == [c] + parts[0] + [sep] + rest;
    }
  }

  lemma JoinEmptyFront(parts: seq<string>, sep: char)
    requires parts != []
    ensures Join([""] + parts, sep) == [sep] + Join(parts, sep)
  {
    assert ([""] + parts)[1..] == parts;
    assert "" + [sep] + Join(parts, sep) == [sep] + Join(parts, sep);
  }

  lemma {:induction false} SplitFree(s: string, sep: char)
    ensures Free(Split(s, sep), sep)
  {
    if s != "" {
      SplitFree(s[1..], sep);
    }
  }

  /** Splitting cuts at every separator, and joining puts the text together again. */
  lemma {:induction false} JoinOfSplit(s: string, sep: char)
    ensures Join(Split(s, sep), sep) == s && Free(Split(s, sep), sep)
  {
    SplitFree(s, sep);
    hide Join, Free;
    if s == "" {
      JoinNothing(sep);
    } else {
      var rest := Split(s[1..], sep);
      JoinOfSplit(s[1..], sep);
      JoinEmptyFront(rest, sep);
      JoinFront(s[0], rest, sep);
      assert s == [s[0]] + s[1..];
    }
  }

  lemma JoinNothing(sep: char)
    ensures Join([""], sep) == ""
  {
  }

  /** The parts are those that, free of the separator, make up the text. */
  lemma SplitExactly(s: string, sep: char, parts: seq<string>)
    requires parts != []
    ensures Split(s, sep) == parts <==> Free(parts, sep) && Join(parts, sep) == s
  {
    JoinOfSplit(s, sep);
    if Free(parts, sep) {
      SplitOfJoin(parts, sep);
    }
  }

  lemma {:induction false} JoinSnoc(parts: seq<string>, sep: char, last: string)
    requires parts != []
    ensures Join(parts + [last], sep) == Join(parts, sep) + [sep] + last
  {
    var all := parts + [last];
    if |parts| == 1 {
      assert all[1..] == [last];
    } else {
      assert all[1..] == parts[1..] + [last];
      JoinSnoc(parts[1..], sep, last);
    }
  }

  lemma {:induction false} SplitCount(s: string, sep: char)
    ensures |Split(s, sep)| == 1 + multiset(s)[sep]
  {
    if s != "" {
      assert s == [s[0]] + s[1..];
      SplitCount(s[1..], sep);
    }
  }

  function Holding(parts: seq<string>, sep: char): nat {
    if parts == [] then 0 else multiset(parts[0])[sep] + Holding(parts[1..], sep)
  }

  lemma {:induction false} JoinCount(parts: seq<string>, sep: char)
    requires parts != []
    ensures multiset(Join(parts, sep))[sep] == |parts| - 1 + Holding(parts, sep)
  {
    if |parts| == 1 {
      assert parts[1..] == [];
    } else {
      JoinCount(parts[1..], sep);
      assert multiset(parts[0] + [sep] + Join(parts[1..], sep)) == multiset(parts[0]) + multiset{sep} + multiset(Join(parts[1..], sep));
    }
  }

  lemma {:induction false} HoldingNone(parts: seq<string>, sep: char)
    requires Holding(parts, sep) == 0
    ensures Free(parts, sep)
  {
    if parts != [] {
      HoldingNone(parts[1..], sep);
      assert parts == [parts[0]] + parts[1..];
      assert forall i :: 1 <= i < |parts| ==> parts[i] == parts[1..][i - 1];
    }
  }

  /** Splitting gives as many parts as were joined only if none holds the separator. */
  lemma PartsKeptOnlyIfFree(parts: seq<string>, sep: char)
    requires parts != [] && |Split(Join(parts, sep), sep)| == |parts|
    ensures Free(parts, sep)
  {
    SplitCount(Join(parts, sep), sep);
    JoinCount(parts, sep);
    HoldingNone(parts, sep);
  }

  lemma {:induction false} JoinOver(parts: seq<string>, sep: char, c: char)
    ensures c in Join(parts, sep) ==> (|parts| > 1 && c == sep) || exists i :: 0 <= i < |parts| && c in parts[i]
    ensures (exists i :: 0 <= i < |parts| && c in parts[i]) ==> c in Join(parts, sep)
  {
    if |parts| > 1 {
      JoinOver(parts[1..], sep, c);
      assert forall i :: 1 <= i < |parts| ==> parts[i] == parts[1..][i - 1];
    }
  }

  // ---------------------------------------------------------------- decimal numbers

  function Digit(d: nat): char
    requires d < 10
  {
    '0' + d as char
  }

  predicate IsDigit(c: char) {
    '0' <= c <= '9'
  }

  function Digits(n: nat): string {
    if n < 10 then [Digit(n)] else Digits(n / 10) + [Digit(n % 10)]
  }

  function ParseDigits(s: string): Option<nat> {
    if s == "" || !IsDigit(s[|s| - 1]) then None else
    var last := (s[|s| - 1] as int) - ('0' as int);
    if |s| == 1 then Some(last) else
    match ParseDigits(s[..|s| - 1])
    case Some(n) => Some(10 * n + last)
    case None => None
  }

  lemma {:induction false} ParseOfDigits(n: nat)
    ensures ParseDigits(Digits(n)) == Some(n) && (forall c :: c in Digits(n) ==> IsDigit(c))
  {
    if n >= 10 {
      ParseOfDigits(n / 10);
      assert Digits(n)[..|Digits(n)| - 1] == Digits(n / 10);
    }
  }

  predicate Number(s: string) {
    s != "" && forall c :: c in s ==> IsDigit(c)
  }

  /** The text is decimal text of n behind k zeros. */
  predicate Padded(s: string, k: int, n: nat) {
    0 <= k < |s| && (forall i :: 0 <= i < k ==> s[i] == '0') && s[k..] == Digits(n)
  }

  lemma PaddedSnoc(init: string, c: char, k: int, m: nat) returns (j: int)
    requires Padded(init, k, m) && IsDigit(c)
    ensures Padded(init + [c], j, 10 * m + ((c as int) - ('0' as int)))
  {
    var s, n := init + [c], 10 * m + ((c as int) - ('0' as int));
    if m == 0 {
      assert |init[k..]| == |Digits(0)| == 1 && init[k..][0] == '0';
      assert k == |init| - 1 && init[k] == '0';
      assert s[k] == init[k] && forall i :: 0 <= i < k ==> s[i] == init[i];
      assert s[|s| - 1..] == [c] && Digits(n) == [c];
      j := |s| - 1;
    } else {
      assert n / 10 == m && Digits(n) == Digits(m) + [c];
      assert s[k..] == init[k..] + [c];
      assert forall i :: 0 <= i < k ==> s[i] == init[i];
      j := k;
    }
  }

  /** Every text of digits is a number: the one whose decimal text follows the leading zeros. */
  lemma {:induction false} ParseDigitsExactly(s: string)
    ensures ParseDigits(s).Some? <==> Number(s)
    ensures ParseDigits(s).Some? ==> exists k :: Padded(s, k, ParseDigits(s).value)
  {
    hide Padded, Digits;
    if s != "" {
      var init, c := s[..|s| - 1], s[|s| - 1];
      assert s == init + [c] && c in s;
      assert forall x :: x in s <==> x in init || x == c;
      if |s| > 1 {
        ParseDigitsExactly(init);
        if ParseDigits(s).Some? {
          var m := ParseDigits(init).value;
          var k :| Padded(init, k, m);
          var j := PaddedSnoc(init, c, k, m);
        }
      } else if IsDigit(c) {
        OneDigit(c);
      }
    }
  }

  lemma OneDigit(c: char)
    requires IsDigit(c)
    ensures Padded([c], 0, (c as int) - ('0' as int))
  {
  }

  function IntText(i: int): string {
    if i < 0 then "-" + Digits(-i) else Digits(i)
  }

  function ParseInt(s: string): Option<int> {
    if s != "" && s[0] == '-' then
      match ParseDigits(s[1..])
      case Some(n) => var i: int := n; Some(-i)
      case None => None
    else
      match ParseDigits(s)
      case Some(n) => var i: int := n; Some(i)
      case None => None
  }

  lemma ParseOfInt(i: int)
    ensures ParseInt(IntText(i)) == Some(i) && forall c :: c in IntText(i) ==> IsDigit(c) || c == '-'
  {
    hide ParseDigits, Digits;
    if i < 0 {
      ParseOfDigits(-i);
      assert IntText(i)[1..] == Digits(-i);
    } else {
      ParseOfDigits(i);
      assert Digits(i) != "" ==> Digits(i)[0] in Digits(i);
    }
  }

  // ---------------------------------------------------------------- dotted quads

  type Octet = n: nat | n < 256

  datatype IPv4 = IPv4(a: Octet, b: Octet, c: Octet, d: Octet)

  function Quad(ip: IPv4): string {
    Join([Digits(ip.a), Digits(ip.b), Digits(ip.c), Digits(ip.d)], '.')
  }

  /** At most three digits, no leading zero, at most 255. */
  function ParseOctet(s: string): Option<Octet> {
    if |s| > 3 || (|s| > 1 && s[0] == '0') then None else
    match ParseDigits(s)
    case Some(n) => if n < 256 then Some(n) else None
    case None => None
  }

  function ParseQuad(s: string): Option<IPv4> {
    var parts := Split(s, '.');
    if |parts| != 4 then None else
    match (ParseOctet(parts[0]), ParseOctet(parts[1]), ParseOctet(parts[2]), ParseOctet(parts[3]))
    case (Some(a), Some(b), Some(c), Some(d)) => Some(IPv4(a, b, c, d))
    case _ => None
  }

  lemma ParseOfOctet(n: Octet)
    ensures ParseOctet(Digits(n)) == Some(n) && '.' !in Digits(n)
  {
    ParseOfDigits(n);
    DigitsLength(n);
    DigitsStart(n);
    hide Digits, ParseDigits;
    assert '.' in Digits(n) ==> IsDigit('.');
  }

  /** An octet has one text. */
  lemma OctetExactly(s: string, n: Octet)
    ensures ParseOctet(s) == Some(n) <==> s == Digits(n)
  {
    ParseOfOctet(n);
    if ParseOctet(s) == Some(n) {
      ParseDigitsExactly(s);
      hide ParseDigits, Digits;
      var k :| Padded(s, k, n);
      assert s[0..] == s;
    }
  }

  /** And an address. */
  lemma QuadExactly(s: string, ip: IPv4)
    ensures ParseQuad(s) == Some(ip) <==> s == Quad(ip)
  {
    var parts := Split(s, '.');
    ParseOfQuad(ip);
    JoinOfSplit(s, '.');
    if |parts| == 4 {
      OctetExactly(parts[0], ip.a);
      OctetExactly(parts[1], ip.b);
      OctetExactly(parts[2], ip.c);
      OctetExactly(parts[3], ip.d);
      hide ParseOctet, Join, Split;
      assert parts == [parts[0], parts[1], parts[2], parts[3]];
    }
  }

  lemma {:induction false} DigitsStart(n: nat)
    ensures Digits(n) != "" && (n > 0 ==> Digits(n)[0] != '0')
  {
    if n >= 10 {
      DigitsStart(n / 10);
    }
  }

  lemma DigitsLength(n: nat)
    ensures n < 10 ==> |Digits(n)| == 1
    ensures n < 1000 ==> |Digits(n)| <= 3
  {
    if 10 <= n < 1000 {
      var m := n / 10;
      assert |Digits(n)| == |Digits(m)| + 1;
      if m >= 10 {
        assert m / 10 < 10;
        assert |Digits(m)| == |Digits(m / 10)| + 1;
      }
    }
  }

  lemma ParseOfQuad(ip: IPv4)
    ensures ParseQuad(Quad(ip)) == Some(ip)
    ensures forall c :: c in Quad(ip) ==> IsDigit(c) || c == '.'
  {
    var parts := [Digits(ip.a), Digits(ip.b), Digits(ip.c), Digits(ip.d)];
    ParseOfOctet(ip.a);
    ParseOfOctet(ip.b);
    ParseOfOctet(ip.c);
    ParseOfOctet(ip.d);
    SplitOfJoin(parts, '.');
    forall c | c in Quad(ip) ensures IsDigit(c) || c == '.' {
      JoinOver(parts, '.', c);
      if i :| 0 <= i < 4 && c in parts[i] {
        ParseOfDigits([ip.a, ip.b, ip.c, ip.d][i]);
      }
    }
  }
}
