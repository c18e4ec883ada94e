/**
 What the check for private targets (isPrivateHost in src/core/utils.cpp) means for addresses and names: it
 compares texts, and is stated here in terms of the numbers of an IPv4 address and of whole names.
 */
module PrivateHosts {
  import opened Decimal
  import opened TargetUrl
  import opened Text

  /** An IPv4 address in dotted form. */
  function Dotted(a: nat, b: nat, c: nat, d: nat): string {
    Digits(a) + ("." + (Digits(b) + ("." + (Digits(c) + ("." + Digits(d))))))
  }

  // ----- comparing the start of an address -----

  /** Only digits and dots. */
  ghost predicate IsNumeric(s: string) {
    forall i :: 0 <= i < |s| ==> IsDigit(s[i]) || s[i] == '.'
  }

  lemma {:induction false} NumericConcat(a: string, b: string)
    requires IsNumeric(a) && IsNumeric(b)
    ensures IsNumeric(a + b)
  {
  }

  lemma {:induction false} DottedIsNumeric(a: nat, b: nat, c: nat, d: nat)
    ensures IsNumeric(Dotted(a, b, c, d)) && IsDigit(Dotted(a, b, c, d)[0])
  {
    DigitsRead(a);
    DigitsRead(b);
    DigitsRead(c);
    DigitsRead(d);
    var cd := Digits(c) + ("." + Digits(d));
    var bcd := Digits(b) + ("." + cd);
    NumericConcat(".", Digits(d));
    NumericConcat(Digits(c), "." + Digits(d));
    NumericConcat(".", cd);
    NumericConcat(Digits(b), "." + cd);
    NumericConcat(".", bcd);
    NumericConcat(Digits(a), "." + bcd);
  }

  lemma {:induction false} NumericIsLower(s: string)
    requires IsNumeric(s)
    ensures Lower(s) == s
  {
  }

  lemma {:induction false} DigitsHaveNoDot(n: nat)
    ensures NoneOf(Digits(n), {'.'})
  {
    DigitsRead(n);
  }

  /** Two dotted texts that start alike up to the first dot. */
  lemma {:induction false} FirstPart(x: string, s: string, rest: string)
    requires NoneOf(x, {'.'}) && NoneOf(s, {'.'})
    ensures x + "." <= s + ("." + rest) <==> x == s
  {
    var t := s + ("." + rest);
    if x + "." <= t {
      var tail := t[|x| + 1..];
      assert t == x + ("." + tail);
      CutUnique(x, "." + tail, {'.'});
      CutUnique(s, "." + rest, {'.'});
    }
  }

  lemma {:induction false} DigitsEqual(a: nat, b: nat)
    ensures Digits(a) == Digits(b) <==> a == b
  {
    DigitsRead(a);
    DigitsRead(b);
  }

  /** The first number of an address. */
  lemma {:induction false} StartsWithNumber(x: nat, a: nat, rest: string)
    ensures Digits(x) + "." <= Digits(a) + ("." + rest) <==> x == a
  {
    DigitsHaveNoDot(x);
    DigitsHaveNoDot(a);
    FirstPart(Digits(x), Digits(a), rest);
    DigitsEqual(x, a);
  }

  /** The first two numbers of an address. */
  lemma {:induction false} StartsWithNumbers(x: nat, y: nat, a: nat, b: nat, rest: string)
    ensures Digits(x) + "." + Digits(y) + "." <= Digits(a) + ("." + (Digits(b) + ("." + rest))) <==> x == a && y == b
  {
    var more := Digits(b) + ("." + rest);
    var text := Digits(a) + ("." + more);
    var prefix := Digits(x) + "." + Digits(y) + ".";
    assert prefix == (Digits(x) + ".") + (Digits(y) + ".");
    StartsWithNumber(x, a, more);
    StartsWithNumber(y, b, rest);
    PrefixInTwo(Digits(x) + ".", Digits(y) + ".", text);
    if x == a {
      assert text == (Digits(x) + ".") + more && text[|Digits(x) + "."|..] == more;
    }
  }

  lemma {:induction false} PrefixInTwo(p: string, q: string, s: string)
    ensures p + q <= s <==> p <= s && q <= s[|p|..]
  {
    if p <= s && q <= s[|p|..] {
      assert s == p + s[|p|..];
      assert s[|p|..] == q + s[|p|..][|q|..];
    }
    if p + q <= s {
      assert s == (p + q) + s[|p + q|..] == p + (q + s[|p + q|..]);
    }
  }

  // ----- the numbers in the source's texts -----

  lemma {:induction false} TwoDigits(n: nat)
    requires 10 <= n < 100
    ensures Digits(n) == [DigitChar(n / 10), DigitChar(n % 10)]
  {
    assert Digits(n / 10) == [DigitChar(n / 10)];
  }

  lemma {:induction false} ThreeDigits(n: nat)
    requires 100 <= n < 1000
    ensures Digits(n) == [DigitChar(n / 100), DigitChar(n / 10 % 10), DigitChar(n % 10)]
  {
    TwoDigits(n / 10);
  }

  /** The text of the block 172.x, for 16 to 31. */
  function Block(y: nat): string
    requires 16 <= y <= 31
  {
    "172." + (if y < 20 then "1" else if y < 30 then "2" else "3") + [DigitChar(y % 10)] + "."
  }

  lemma {:induction false} BlockText(y: nat)
    requires 16 <= y <= 31
    ensures Block(y) == Digits(172) + "." + Digits(y) + "."
  {
    ThreeDigits(172);
    TwoDigits(y);
    assert Digits(172) == "172";
    assert [DigitChar(y / 10)] == (if y < 20 then "1" else if y < 30 then "2" else "3");
    assert Digits(y) == [DigitChar(y / 10)] + [DigitChar(y % 10)];
  }

  lemma {:induction false} BlocksFrom16()
    ensures Block(16) == "172.16." && Block(17) == "172.17." && Block(18) == "172.18." && Block(19) == "172.19."
  {
  }

  lemma {:induction false} BlocksFrom20()
    ensures Block(20) == "172.20." && Block(21) == "172.21." && Block(22) == "172.22." && Block(23) == "172.23."
    ensures Block(24) == "172.24." && Block(25) == "172.25." && Block(26) == "172.26." && Block(27) == "172.27."
  {
  }

  lemma {:induction false} BlocksFrom28()
    ensures Block(28) == "172.28." && Block(29) == "172.29." && Block(30) == "172.30." && Block(31) == "172.31."
  {
  }

  ghost predicate InSomeBlock(h: string) {
    exists y :: 16 <= y <= 31 && HasPrefix(h, Block(y))
  }

  lemma {:induction false} StartsIn172Exactly(h: string)
    ensures StartsIn172(h) <==> InSomeBlock(h)
  {
    BlocksFrom16();
    BlocksFrom20();
    BlocksFrom28();
  }

  lemma {:induction false} InBlock(h: string, y: nat, a: nat, b: nat, rest: string)
    requires 16 <= y <= 31 && h == Digits(a) + ("." + (Digits(b) + ("." + rest)))
    ensures HasPrefix(h, Block(y)) <==> a == 172 && b == y
  {
    BlockText(y);
    StartsWithNumbers(172, y, a, b, rest);
  }

  lemma {:induction false} InSomeBlockExactly(h: string, a: nat, b: nat, rest: string)
    requires h == Digits(a) + ("." + (Digits(b) + ("." + rest)))
    ensures InSomeBlock(h) <==> a == 172 && 16 <= b <= 31
  {
    if InSomeBlock(h) {
      var y: nat :| 16 <= y <= 31 && HasPrefix(h, Block(y));
      InBlock(h, y, a, b, rest);
    }
    if a == 172 && 16 <= b <= 31 {
      InBlock(h, b, a, b, rest);
    }
  }

  lemma {:induction false} In172(a: nat, b: nat, c: nat, d: nat)
    ensures StartsIn172(Dotted(a, b, c, d)) <==> a == 172 && 16 <= b <= 31
  {
    StartsIn172Exactly(Dotted(a, b, c, d));
    InSomeBlockExactly(Dotted(a, b, c, d), a, b, Digits(c) + ("." + Digits(d)));
  }

  lemma {:induction false} InOtherBlocks(a: nat, b: nat, c: nat, d: nat)
    ensures var h := Dotted(a, b, c, d);
            && (HasPrefix(h, "127.") <==> a == 127) && (HasPrefix(h, "10.") <==> a == 10)
            && (HasPrefix(h, "192.168.") <==> a == 192 && b == 168) && (HasPrefix(h, "169.254.") <==> a == 169 && b == 254)
  {
    var cd := Digits(c) + ("." + Digits(d));
    OtherTexts();
    StartsWithNumber(127, a, Digits(b) + ("." + cd));
    StartsWithNumber(10, a, Digits(b) + ("." + cd));
    StartsWithNumbers(192, 168, a, b, cd);
    StartsWithNumbers(169, 254, a, b, cd);
  }

  lemma {:induction false} OtherTexts()
    ensures "127." == Digits(127) + "." && "10." == Digits(10) + "."
    ensures "192.168." == Digits(192) + "." + Digits(168) + "." && "169.254." == Digits(169) + "." + Digits(254) + "."
  {
    assert Digits(127) == "127" && Digits(192) == "192" by {
      ThreeDigits(127);
      ThreeDigits(192);
    }
    assert Digits(168) == "168" && Digits(169) == "169" && Digits(254) == "254" by {
      ThreeDigits(168);
      ThreeDigits(169);
      ThreeDigits(254);
    }
    assert Digits(10) == "10" by {
      TwoDigits(10);
    }
  }

  lemma {:induction false} NumericIsNoName(h: string)
    requires IsNumeric(h) && h != "" && IsDigit(h[0])
    ensures IsPrivateName(h) <==> h == "0.0.0.0"
    ensures WithoutBrackets(h) == h && h != "localhost" && h != "::1"
    ensures !HasPrefix(h, "fc") && !HasPrefix(h, "fd") && !HasPrefix(h, "fe80:")
  {
    forall i | 0 <= i <= |h|
      ensures !(".internal" <= h[i..]) && !(".local" <= h[i..])
    {
      assert ".internal"[1] == 'i' && ".local"[1] == 'l';
      assert |h[i..]| > 1 ==> h[i..][1] == h[i + 1];
    }
  }

  lemma {:induction false} ZeroAddress(a: nat, b: nat, c: nat, d: nat)
    ensures Dotted(a, b, c, d) == "0.0.0.0" <==> a == b == c == d == 0
  {
    assert Digits(0) == "0";
    assert Dotted(0, 0, 0, 0) == "0.0.0.0";
    if Dotted(a, b, c, d) == "0.0.0.0" {
      SameAddress(a, b, c, d, 0, 0, 0, 0);
    }
  }

  lemma {:induction false} SameAddress(a: nat, b: nat, c: nat, d: nat, a': nat, b': nat, c': nat, d': nat)
    requires Dotted(a, b, c, d) == Dotted(a', b', c', d')
    ensures a == a' && b == b' && c == c' && d == d'
  {
    SameFirst(a, Digits(b) + ("." + (Digits(c) + ("." + Digits(d)))), a', Digits(b') + ("." + (Digits(c') + ("." + Digits(d')))));
    SameFirst(b, Digits(c) + ("." + Digits(d)), b', Digits(c') + ("." + Digits(d')));
    SameFirst(c, Digits(d), c', Digits(d'));
    DigitsEqual(d, d');
  }

  lemma {:induction false} SameFirst(a: nat, rest: string, a': nat, rest': string)
    requires Digits(a) + ("." + rest) == Digits(a') + ("." + rest')
    ensures a == a' && rest == rest'
  {
    DigitsHaveNoDot(a);
    DigitsHaveNoDot(a');
    CutUnique(Digits(a), "." + rest, {'.'});
    CutUnique(Digits(a'), "." + rest', {'.'});
    assert ("." + rest)[1..] == rest && ("." + rest')[1..] == rest';
    DigitsEqual(a, a');
  }

  /**
   An IPv4 address is private exactly when it is one of the loopback, private-use or link-local blocks, or
   the unspecified address.
   */
  lemma {:induction false} PrivateAddressExactly(a: nat, b: nat, c: nat, d: nat)
    ensures IsPrivateHost(Dotted(a, b, c, d)) <==>
              || a == 127 || a == 10 || (a == 192 && b == 168) || (a == 169 && b == 254) || (a == 172 && 16 <= b <= 31)
              || a == b == c == d == 0
  {
    var h := Dotted(a, b, c, d);
    DottedIsNumeric(a, b, c, d);
    NumericIsLower(h);
    NumericIsNoName(h);
    ZeroAddress(a, b, c, d);
    In172(a, b, c, d);
    InOtherBlocks(a, b, c, d);
  }

  // ----- names and IPv6 addresses -----

  /** A host is private in any letter case: the names of the machine itself, and names with a local or internal part. */
  lemma {:induction false} PrivateNames(host: string, name: string, before: string, after: string)
    requires Lower(host) == name
    requires || name == "localhost" || name == "::1" || name == "::" || name == "[::1]" || name == "[::]" || name == "internal"
             || name == "localhost.localdomain" || name == before + (".local" + after) || name == before + (".internal" + after)
    ensures IsPrivateHost(host)
  {
    assert name == before + (".local" + after) ==> name[|before|..] == ".local" + after;
    assert name == before + (".internal" + after) ==> name[|before|..] == ".internal" + after;
  }

  /** A unique local or link-local IPv6 address, in brackets and in any letter case. */
  lemma {:induction false} PrivateV6(host: string, inside: string)
    requires Lower(host) == "[" + inside + "]" && ("fc" <= inside || "fd" <= inside || "fe80:" <= inside)
    ensures IsPrivateHost(host)
  {
    assert WithoutBrackets("[" + inside + "]") == inside;
  }
}
