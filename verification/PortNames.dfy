/** Ordering keys read off interface names such as eth1/34/5. */
module PortNames {
  import opened Sequences
  import opened Orders
  import opened Decimals

  /** `name.replace("eth", "")`. */
  function RemoveEth(s: string): (r: string) {
    if |s| < 3 then s
    else if s[0] == 'e' && s[1] == 't' && s[2] == 'h' then RemoveEth(s[3..])
    else [s[0]] + RemoveEth(s[1..])
  }

  /** `s.split("/")`. */
  function Split(s: string): (r: seq<string>)
    ensures r != []
  {
    if s == [] then [[]]
    else
      var rest := Split(s[1..]);
      if s[0] == '/' then [[]] + rest else [[s[0]] + rest[0]] + rest[1..]
  }

  /** The number formed by a token's digits, 0 when it has none. */
  function TokenValue(token: string): (r: int) { Value(Filter(IsDigit, token)) }

  function Tokens(name: string): (r: seq<string>)
    ensures r != []
  {
    Split(RemoveEth(name))
  }

  /** `_port_sort_key`. */
  function PortKey(name: string): (k: Key) { Map(TokenValue, Tokens(name)) }

  method PortSortKey(name: string) returns (parts: Key)
    ensures parts == PortKey(name)
  {
    parts := [];
    var tokens := Tokens(name);
    for n := 0 to |tokens|
      invariant parts == Map(TokenValue, tokens[..n])
    {
      var digits := Filter(IsDigit, tokens[n]);
      var part := if digits != [] then Value(digits) else 0;
      assert tokens[..n + 1] == tokens[..n] + [tokens[n]];
      MapAppend(TokenValue, tokens[..n], [tokens[n]]);
      assert part == TokenValue(tokens[n]);
      parts := parts + [part];
    }
    assert tokens[..|tokens|] == tokens;
  }

  /** `key[:-1]`. */
  function DropLast(k: Key): (r: Key) { if k == [] then [] else k[..|k| - 1] }

  /** `b` goes on where `a` ends, below it: all but the last component of `a` lead `b`, and the last one is larger. */
  predicate Clashes(a: Key, b: Key) {
    0 < |a| < |b| && a[..|a| - 1] == b[..|a| - 1] && a[|a| - 1] > b[|a| - 1]
  }

  lemma ClashTail(a: Key, b: Key)
    requires |a| > 1 && |b| > 0 && a[0] == b[0]
    ensures Clashes(a, b) <==> Clashes(a[1..], b[1..])
  {
    if |a| < |b| {
      assert a[..|a| - 1] == [a[0]] + a[1..][..|a| - 2] && b[..|a| - 1] == [b[0]] + b[1..][..|a| - 2];
      assert a[1..][..|a| - 2] == a[..|a| - 1][1..] && b[1..][..|a| - 2] == b[..|a| - 1][1..];
    }
  }

  /** When all but the last components order two keys, the whole keys are ordered so exactly without a clash. */
  lemma {:induction false} LexByDropLast(a: Key, b: Key)
    requires DropLast(a) != DropLast(b) && LexLe(DropLast(a), DropLast(b))
    ensures LexLe(a, b) <==> !Clashes(a, b)
  {
    if |a| > 1 {
      assert |b| > 1 && DropLast(a)[0] == a[0] && DropLast(b)[0] == b[0];
      if a[0] == b[0] {
        assert DropLast(a) == [a[0]] + DropLast(a[1..]) && DropLast(b) == [b[0]] + DropLast(b[1..]);
        assert DropLast(a)[1..] == DropLast(a[1..]) && DropLast(b)[1..] == DropLast(b[1..]);
        LexByDropLast(a[1..], b[1..]);
        ClashTail(a, b);
      } else {
        assert |a| < |b| ==> a[..|a| - 1][0] == a[0] && b[..|a| - 1][0] == b[0];
      }
    } else if |a| == 1 {
      assert |b| > 1;
      assert a[1..] == [] && a[..0] == b[..0];
    }
  }

  /** A clash puts the shorter key's transceiver first. */
  lemma ClashOrder(a: Key, b: Key)
    requires Clashes(a, b)
    ensures DropLast(a) != DropLast(b) && LexLe(DropLast(a), DropLast(b)) && !LexLe(a, b)
  {
    var n := |a| - 1;
    assert DropLast(a) == b[..n] == DropLast(b)[..n];
    LexPrefix(DropLast(b), n);
    LexByDropLast(a, b);
  }

  lemma {:induction false} LexPrefix(k: Key, n: nat)
    requires n <= |k|
    ensures LexLe(k[..n], k)
  {
    if n > 0 {
      LexPrefix(k[1..], n - 1);
      assert k[..n][1..] == k[1..][..n - 1];
    }
  }

  // ---------- what the key of a well-formed name is ----------

  const ETH := "eth"
  const SLASH := "/"

  function PortName(unit: nat, mod: nat, lane: nat): (s: string) {
    ETH + (Decimal(unit) + SLASH + (Decimal(mod) + SLASH + Decimal(lane)))
  }

  lemma {:induction false} NothingToRemove(s: string)
    requires 'e' !in s
    ensures RemoveEth(s) == s
  {
    if |s| >= 3 {
      assert s[0] in s;
      NothingToRemove(s[1..]);
    }
  }

  lemma RemoveLeadingEth(s: string)
    requires 'e' !in s
    ensures RemoveEth(ETH + s) == s
  {
    var full := ETH + s;
    assert full[0] == 'e' && full[1] == 't' && full[2] == 'h' && full[3..] == s;
    NothingToRemove(s);
    if |full| == 3 { assert RemoveEth(full[3..]) == s; }
  }

  lemma {:induction false} SplitNone(s: string)
    requires '/' !in s
    ensures Split(s) == [s]
  {
    if s != [] {
      assert s[0] in s;
      SplitNone(s[1..]);
      assert s == [s[0]] + s[1..];
    }
  }

  lemma {:induction false} SplitFirst(a: string, b: string)
    requires '/' !in a
    ensures Split(a + SLASH + b) == [a] + Split(b)
  {
    var s := a + SLASH + b;
    if a == [] {
      assert s[0] == '/' && s[1..] == b;
    } else {
      assert s[0] == a[0] && a[0] in a && s[1..] == a[1..] + SLASH + b;
      SplitFirst(a[1..], b);
      assert a == [a[0]] + a[1..];
    }
  }

  lemma DecimalToken(n: nat)
    ensures TokenValue(Decimal(n)) == n && '/' !in Decimal(n) && 'e' !in Decimal(n)
  {
    DecimalDigits(n);
    FilterAll(IsDigit, Decimal(n));
    ValueDecimal(n);
  }

  /** The key of eth<unit>/<module>/<lane> is (unit, module, lane); dropping the lane names the transceiver. */
  lemma PortKeyReads(unit: nat, mod: nat, lane: nat)
    ensures PortKey(PortName(unit, mod, lane)) == [unit, mod, lane]
    ensures DropLast(PortKey(PortName(unit, mod, lane))) == [unit, mod]
  {
    TokensOfPort(unit, mod, lane);
    DecimalToken(unit);
    DecimalToken(mod);
    DecimalToken(lane);
  }

  lemma TokensOfPort(unit: nat, mod: nat, lane: nat)
    ensures Tokens(PortName(unit, mod, lane)) == [Decimal(unit), Decimal(mod), Decimal(lane)]
  {
    DecimalToken(unit);
    DecimalToken(mod);
    DecimalToken(lane);
    var tail := Decimal(mod) + SLASH + Decimal(lane);
    assert 'e' !in SLASH;
    RemoveLeadingEth(Decimal(unit) + SLASH + tail);
    SplitFirst(Decimal(unit), tail);
    SplitFirst(Decimal(mod), Decimal(lane));
    SplitNone(Decimal(lane));
  }

  /** A name of two components. */
  function PortPair(unit: nat, port: nat): (s: string) { ETH + (Decimal(unit) + SLASH + Decimal(port)) }

  lemma PortPairReads(unit: nat, port: nat)
    ensures PortKey(PortPair(unit, port)) == [unit, port]
  {
    DecimalToken(unit);
    DecimalToken(port);
    assert 'e' !in SLASH;
    RemoveLeadingEth(Decimal(unit) + SLASH + Decimal(port));
    SplitFirst(Decimal(unit), Decimal(port));
    SplitNone(Decimal(port));
  }

  // ---------- names without digits ----------

  lemma {:induction false} ValueNonNegative(s: string, n: nat)
    requires n <= |s| && forall c :: c in s ==> IsDigit(c)
    ensures ValueTo(s, n) >= 0
  {
    if n > 0 {
      ValueNonNegative(s, n - 1);
      assert s[n - 1] in s;
    }
  }

  lemma PortKeyNonNegative(name: string, i: nat)
    requires i < |PortKey(name)|
    ensures PortKey(name)[i] >= 0
  {
    var digits := Filter(IsDigit, Tokens(name)[i]);
    ValueNonNegative(digits, |digits|);
  }

  predicate DigitFree(s: string) { forall i :: 0 <= i < |s| ==> !IsDigit(s[i]) }

  lemma {:induction false} RemoveEthDigitFree(s: string)
    requires DigitFree(s)
    ensures DigitFree(RemoveEth(s))
  {
    if |s| >= 3 {
      if s[0] == 'e' && s[1] == 't' && s[2] == 'h' { RemoveEthDigitFree(s[3..]); } else { RemoveEthDigitFree(s[1..]); }
    }
  }

  lemma {:induction false} SplitDigitFree(s: string)
    requires DigitFree(s)
    ensures forall i :: 0 <= i < |Split(s)| ==> DigitFree(Split(s)[i])
  {
    if s != [] { SplitDigitFree(s[1..]); }
  }

  lemma DigitFreeToken(token: string)
    requires DigitFree(token)
    ensures TokenValue(token) == 0
  {
    FilterNone(IsDigit, token);
  }

  predicate AllZero(k: Key) { forall i :: 0 <= i < |k| ==> k[i] == 0 }

  lemma {:induction false} BelowZeros(k: Key, zeros: Key)
    requires AllZero(zeros) && forall i :: 0 <= i < |k| ==> k[i] >= 0
    ensures LexLe(k, zeros) <==> AllZero(k) && |k| <= |zeros|
  {
    if k != [] && zeros != [] {
      BelowZeros(k[1..], zeros[1..]);
      assert k[0] == 0 && AllZero(k[1..]) ==> AllZero(k);
    }
  }

  /** A name without digits gets a key of zeros, one per token, and the names that sort at or before it are exactly
      those whose key is zeros too and no longer: names without digits sort first, not last. */
  lemma DigitFreeSortsFirst(name: string, other: string)
    requires DigitFree(name)
    ensures AllZero(PortKey(name)) && |PortKey(name)| == |Tokens(name)|
    ensures LexLe(PortKey(other), PortKey(name)) <==> AllZero(PortKey(other)) && |PortKey(other)| <= |PortKey(name)|
  {
    RemoveEthDigitFree(name);
    SplitDigitFree(RemoveEth(name));
    forall i | 0 <= i < |Tokens(name)| ensures PortKey(name)[i] == 0 { DigitFreeToken(Tokens(name)[i]); }
    forall i | 0 <= i < |PortKey(other)| ensures PortKey(other)[i] >= 0 { PortKeyNonNegative(other, i); }
    BelowZeros(PortKey(other), PortKey(name));
  }

  lemma {:induction false} RemoveEthSlashFree(s: string)
    requires '/' !in s
    ensures '/' !in RemoveEth(s)
  {
    if |s| >= 3 {
      if s[0] == 'e' && s[1] == 't' && s[2] == 'h' {
        RemoveEthSlashFree(s[3..]);
      } else {
        assert s[0] in s;
        RemoveEthSlashFree(s[1..]);
      }
    }
  }

  /** A single token without digits gets the least key of all; only names with that very key tie with it. */
  lemma NonNumericSortsFirst(name: string, other: string)
    requires DigitFree(name) && '/' !in name
    ensures PortKey(name) == [0] && LexLe(PortKey(name), PortKey(other))
    ensures LexLe(PortKey(other), PortKey(name)) <==> PortKey(other) == [0]
  {
    RemoveEthSlashFree(name);
    SplitNone(RemoveEth(name));
    DigitFreeSortsFirst(name, other);
    assert |PortKey(other)| == |Tokens(other)| >= 1;
    PortKeyNonNegative(other, 0);
  }
}
