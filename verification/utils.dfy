/** Short-code generation by rejection sampling (app/utils.py).

    `random.choices(alphabet, k=length)` is not modelled as randomness: each
    call is a supplied `Draw`, the sequence of alphabet positions it picked,
    and the draws of one call of the generator are supplied in order.
    `is_valid_url` delegates to a foreign library and is a parameter of the
    store operations instead of a definition here. */
module Utils {

  /** `string.ascii_lowercase`, `string.ascii_uppercase` and `string.digits`. */
  const LowerCase: string := "abcdefghijklmnopqrstuvwxyz"
  const UpperCase: string := "ABCDEFGHIJKLMNOPQRSTUVWXYZ"
  const Digits: string := "0123456789"

  /** `string.ascii_letters + string.digits`: the 62 code symbols. */
  const Alphabet: string := LowerCase + UpperCase + Digits

  const AlphabetSize: nat := 62

  predicate IsAlphanumeric(c: char)
  {
    'a' <= c <= 'z' || 'A' <= c <= 'Z' || '0' <= c <= '9'
  }

  /** A string of exactly `length` ASCII letters and digits. */
  predicate IsCode(s: string, length: nat)
  {
    |s| == length && forall i :: 0 <= i < |s| ==> IsAlphanumeric(s[i])
  }

  /** The symbol at position `i`, computed from its character range. */
  function AlphabetChar(i: nat): (c: char)
    requires i < AlphabetSize
  {
    if i < 26 then ('a' as int + i) as char
    else if i < 52 then ('A' as int + (i - 26)) as char
    else ('0' as int + (i - 52)) as char
  }

  /** The position of an alphanumeric symbol in the alphabet. */
  function AlphabetIndex(c: char): (i: nat)
    requires IsAlphanumeric(c)
    ensures i < AlphabetSize && AlphabetChar(i) == c
  {
    if 'a' <= c <= 'z' then c as int - 'a' as int
    else if 'A' <= c <= 'Z' then 26 + (c as int - 'A' as int)
    else 52 + (c as int - '0' as int)
  }

  /** The spelled-out alphabet agrees position by position with AlphabetChar. */
  lemma AlphabetSpelled()
    ensures |Alphabet| == AlphabetSize
    ensures forall i :: 0 <= i < AlphabetSize ==> Alphabet[i] == AlphabetChar(i)
  {
    assert forall i :: 0 <= i < |LowerCase| ==> LowerCase[i] == ('a' as int + i) as char;
    assert forall i :: 0 <= i < |UpperCase| ==> UpperCase[i] == ('A' as int + i) as char;
    assert forall i :: 0 <= i < |Digits| ==> Digits[i] == ('0' as int + i) as char;
    forall i | 0 <= i < AlphabetSize
      ensures Alphabet[i] == AlphabetChar(i)
    {
      if i < 26 {
        assert Alphabet[i] == LowerCase[i];
      } else if i < 52 {
        assert Alphabet[i] == UpperCase[i - 26];
      } else {
        assert Alphabet[i] == Digits[i - 52];
      }
    }
  }

  /** The alphabet holds exactly the ASCII letters and digits. */
  lemma AlphabetMembers(c: char)
    ensures c in Alphabet <==> IsAlphanumeric(c)
  {
    LowerCaseMembers(c);
    UpperCaseMembers(c);
    DigitsMembers(c);
    assert c in Alphabet <==> c in LowerCase || c in UpperCase || c in Digits;
  }

  lemma LowerCaseMembers(c: char)
    ensures c in LowerCase <==> 'a' <= c <= 'z'
  {
  }

  lemma UpperCaseMembers(c: char)
    ensures c in UpperCase <==> 'A' <= c <= 'Z'
  {
  }

  lemma DigitsMembers(c: char)
    ensures c in Digits <==> '0' <= c <= '9'
  {
  }

  /** No symbol occurs twice in the alphabet. */
  lemma AlphabetDistinct(i: nat, j: nat)
    requires i < AlphabetSize && j < AlphabetSize
    requires Alphabet[i] == Alphabet[j]
    ensures i == j
  {
    AlphabetSpelled();
    assert IsAlphanumeric(Alphabet[i]) && AlphabetIndex(Alphabet[i]) == i;
  }

  /** One symbol choice of `random.choices`: a position in the alphabet. */
  type Pick = i: int | 0 <= i < AlphabetSize

  /** One call of `random.choices(alphabet, k=length)`. */
  type Draw = seq<Pick>

  /** `"".join(...)` of one draw. */
  function Candidate(d: Draw): (code: string)
    ensures IsCode(code, |d|)
    ensures forall i :: 0 <= i < |d| ==> code[i] == Alphabet[d[i]]
  {
    AlphabetSpelled();
    seq(|d|, i requires 0 <= i < |d| => AlphabetChar(d[i]))
  }

  /** Every draw asks for `length` symbols. */
  predicate DrawsOfLength(draws: seq<Draw>, length: nat)
  {
    forall i :: 0 <= i < |draws| ==> |draws[i]| == length
  }

  /** Some draw spells a code outside `existing`: the `while True` loop stops
      within the supplied draws. */
  predicate HasFresh(existing: set<string>, draws: seq<Draw>)
  {
    exists i :: 0 <= i < |draws| && Candidate(draws[i]) !in existing
  }

  /** Draw `i` is the first whose candidate is not in `existing`. */
  predicate FirstFreshAt(existing: set<string>, draws: seq<Draw>, i: int)
  {
    && 0 <= i < |draws|
    && Candidate(draws[i]) !in existing
    && forall j :: 0 <= j < i ==> Candidate(draws[j]) in existing
  }

  /** `generate_short_code`: draw candidates until one is not in use. */
  function GenerateShortCode(existing: set<string>, length: nat, draws: seq<Draw>): (code: string)
    requires DrawsOfLength(draws, length)
    requires HasFresh(existing, draws)
    ensures IsCode(code, length)
    ensures code !in existing
    ensures exists i :: FirstFreshAt(existing, draws, i) && code == Candidate(draws[i])
    decreases |draws|
  {
    var c := Candidate(draws[0]);
    if c !in existing then
      assert FirstFreshAt(existing, draws, 0);
      c
    else
      var i :| 0 <= i < |draws| && Candidate(draws[i]) !in existing;
      assert Candidate(draws[1..][i - 1]) !in existing;
      var r := GenerateShortCode(existing, length, draws[1..]);
      var k :| FirstFreshAt(existing, draws[1..], k) && r == Candidate(draws[1..][k]);
      assert FirstFreshAt(existing, draws, k + 1);
      r
  }

  /** There is only one first fresh draw. */
  lemma FirstFreshIsUnique(existing: set<string>, draws: seq<Draw>, i: int, j: int)
    requires FirstFreshAt(existing, draws, i) && FirstFreshAt(existing, draws, j)
    ensures i == j
  {
  }

  /** The generator returns the first fresh candidate of the draws. */
  lemma GenerateIsFirstFresh(existing: set<string>, length: nat, draws: seq<Draw>, i: int)
    requires DrawsOfLength(draws, length)
    requires FirstFreshAt(existing, draws, i)
    ensures GenerateShortCode(existing, length, draws) == Candidate(draws[i])
  {
    var code := GenerateShortCode(existing, length, draws);
    var k :| FirstFreshAt(existing, draws, k) && code == Candidate(draws[k]);
    FirstFreshIsUnique(existing, draws, i, k);
  }

  /** The `while True` loop of `generate_short_code` as written: take the
      next draw, return its candidate if unused, otherwise draw again. */
  method DrawUntilFresh(existing: set<string>, length: nat, draws: seq<Draw>) returns (code: string, used: nat)
    requires DrawsOfLength(draws, length)
    requires HasFresh(existing, draws)
    ensures FirstFreshAt(existing, draws, used)
    ensures code == Candidate(draws[used])
    ensures code == GenerateShortCode(existing, length, draws)
  {
    used := 0;
    while true
      invariant used < |draws|
      invariant forall j :: 0 <= j < used ==> Candidate(draws[j]) in existing
      invariant exists i :: used <= i < |draws| && Candidate(draws[i]) !in existing
      decreases |draws| - used
    {
      code := Candidate(draws[used]);
      if code !in existing {
        GenerateIsFirstFresh(existing, length, draws, used);
        return;
      }
      used := used + 1;
    }
  }

  // ---------------------------------------------------------------------
  // The keyspace: 62^length codes, so a fresh one exists while the store is
  // smaller than that.

  function Pow(b: nat, n: nat): nat
    decreases n
  {
    if n == 0 then 1 else b * Pow(b, n - 1)
  }

  /** `c` put in front of every string of `t`. */
  function Prepend(c: char, t: set<string>): set<string>
  {
    set s | s in t :: [c] + s
  }

  /** Strings whose first symbol is one of `symbols` and whose rest is in `t`. */
  function Extend(symbols: string, t: set<string>): set<string>
    decreases |symbols|
  {
    if symbols == [] then {}
    else Extend(symbols[..|symbols| - 1], t) + Prepend(symbols[|symbols| - 1], t)
  }

  /** All codes of the given length, built one symbol at a time. */
  function AllCodes(length: nat): set<string>
    decreases length
  {
    if length == 0 then {""} else Extend(Alphabet, AllCodes(length - 1))
  }

  predicate Distinct(symbols: string)
  {
    forall i, j :: 0 <= i < j < |symbols| ==> symbols[i] != symbols[j]
  }

  lemma PrependMembers(c: char, t: set<string>, s: string)
    ensures s in Prepend(c, t) <==> |s| >= 1 && s[0] == c && s[1..] in t
  {
    if |s| >= 1 && s[0] == c && s[1..] in t {
      assert s == [c] + s[1..];
    }
    if s in Prepend(c, t) {
      var u :| u in t && s == [c] + u;
      assert s[1..] == u;
    }
  }

  lemma {:induction false} PrependSize(c: char, t: set<string>)
    ensures |Prepend(c, t)| == |t|
    decreases t
  {
    if t != {} {
      var x :| x in t;
      var rest := t - {x};
      PrependSize(c, rest);
      assert Prepend(c, t) == Prepend(c, rest) + {[c] + x} by {
        forall s ensures s in Prepend(c, t) <==> s in Prepend(c, rest) + {[c] + x} {
          PrependMembers(c, t, s);
          PrependMembers(c, rest, s);
          if s == [c] + x {
            assert s[1..] == x;
          }
          if |s| >= 1 && s[0] == c && s[1..] == x {
            assert s == [c] + x;
          }
        }
      }
      PrependMembers(c, rest, [c] + x);
      assert ([c] + x)[1..] == x;
    }
  }

  lemma {:induction false} ExtendMembers(symbols: string, t: set<string>, s: string)
    ensures s in Extend(symbols, t) <==> |s| >= 1 && s[0] in symbols && s[1..] in t
    decreases |symbols|
  {
    if symbols != [] {
      var n := |symbols| - 1;
      ExtendMembers(symbols[..n], t, s);
      PrependMembers(symbols[n], t, s);
      assert symbols == symbols[..n] + [symbols[n]];
    }
  }

  lemma DistinctPrefix(symbols: string, n: nat)
    requires Distinct(symbols) && n <= |symbols|
    ensures Distinct(symbols[..n])
  {
    assert forall i :: 0 <= i < n ==> symbols[..n][i] == symbols[i];
  }

  /** The last symbol's strings share none with the earlier symbols' strings. */
  lemma ExtendDisjoint(symbols: string, t: set<string>)
    requires Distinct(symbols) && |symbols| > 0
    ensures Extend(symbols[..|symbols| - 1], t) * Prepend(symbols[|symbols| - 1], t) == {}
  {
    var n := |symbols| - 1;
    forall s | s in Prepend(symbols[n], t)
      ensures s !in Extend(symbols[..n], t)
    {
      PrependMembers(symbols[n], t, s);
      ExtendMembers(symbols[..n], t, s);
    }
  }

  lemma DisjointUnionSize<T>(a: set<T>, b: set<T>)
    requires a * b == {}
    ensures |a + b| == |a| + |b|
  {
  }

  lemma MulSucc(n: nat, m: nat)
    ensures (n + 1) * m == n * m + m
  {
  }

  lemma {:induction false} ExtendSize(symbols: string, t: set<string>)
    requires Distinct(symbols)
    ensures |Extend(symbols, t)| == |symbols| * |t|
    decreases |symbols|
  {
    if symbols != [] {
      var n := |symbols| - 1;
      DistinctPrefix(symbols, n);
      ExtendSize(symbols[..n], t);
      PrependSize(symbols[n], t);
      ExtendDisjoint(symbols, t);
      DisjointUnionSize(Extend(symbols[..n], t), Prepend(symbols[n], t));
      MulSucc(n, |t|);
    }
  }

  lemma AlphabetIsDistinct()
    ensures Distinct(Alphabet)
  {
    AlphabetSpelled();
    forall i, j | 0 <= i < j < |Alphabet|
      ensures Alphabet[i] != Alphabet[j]
    {
      if Alphabet[i] == Alphabet[j] {
        AlphabetDistinct(i, j);
      }
    }
  }

  /** The keyspace holds 62^length codes. */
  lemma {:induction false} AllCodesSize(length: nat)
    ensures |AllCodes(length)| == Pow(AlphabetSize, length)
    decreases length
  {
    if length > 0 {
      AllCodesSize(length - 1);
      AlphabetIsDistinct();
      AlphabetSpelled();
      ExtendSize(Alphabet, AllCodes(length - 1));
      assert Pow(AlphabetSize, length) == AlphabetSize * Pow(AlphabetSize, length - 1);
    }
  }

  /** A non-empty code is a symbol followed by a code one shorter. */
  lemma CodeSplits(s: string, length: nat)
    requires |s| >= 1 && length >= 1
    ensures IsCode(s, length) <==> IsAlphanumeric(s[0]) && IsCode(s[1..], length - 1)
  {
    if IsAlphanumeric(s[0]) && IsCode(s[1..], length - 1) {
      forall i | 1 <= i < |s| ensures IsAlphanumeric(s[i]) {
        assert s[i] == s[1..][i - 1];
      }
    }
  }

  lemma ExtendAlphabetMembers(t: set<string>, s: string)
    ensures s in Extend(Alphabet, t) <==> |s| >= 1 && IsAlphanumeric(s[0]) && s[1..] in t
  {
    ExtendMembers(Alphabet, t, s);
    if |s| >= 1 {
      AlphabetMembers(s[0]);
    }
  }

  /** The keyspace is exactly the alphanumeric strings of that length. */
  lemma {:induction false} AllCodesMembers(length: nat, s: string)
    ensures s in AllCodes(length) <==> IsCode(s, length)
    decreases length
  {
    if length > 0 {
      ExtendAlphabetMembers(AllCodes(length - 1), s);
      if |s| >= 1 {
        AllCodesMembers(length - 1, s[1..]);
        CodeSplits(s, length);
      }
    }
  }

  /** While fewer than 62^length codes are in use, an unused code of that
      length exists, so "a new, unused short code" can always be produced. */
  lemma FreshCodeExists(existing: set<string>, length: nat)
    requires |existing| < Pow(AlphabetSize, length)
    ensures exists s :: IsCode(s, length) && s !in existing
  {
    AllCodesSize(length);
    var all := AllCodes(length);
    assert |all - existing| > 0 by {
      assert |all - existing| + |all * existing| == |all|;
      assert all * existing <= existing;
    }
    var s :| s in all - existing;
    AllCodesMembers(length, s);
  }

  /** Every code of the keyspace can be drawn by `random.choices`. */
  lemma CodeIsDrawable(s: string, length: nat)
    requires IsCode(s, length)
    ensures exists d: Draw :: |d| == length && Candidate(d) == s
  {
    var d: Draw := seq(length, i requires 0 <= i < length => AlphabetIndex(s[i]) as Pick);
    AlphabetSpelled();
    assert Candidate(d) == s;
  }

  /** So the rejection loop can succeed: some single draw yields an unused
      code whenever the keyspace is not exhausted. */
  lemma FreshDrawExists(existing: set<string>, length: nat)
    requires |existing| < Pow(AlphabetSize, length)
    ensures exists d: Draw :: |d| == length && HasFresh(existing, [d])
  {
    FreshCodeExists(existing, length);
    var s :| IsCode(s, length) && s !in existing;
    CodeIsDrawable(s, length);
    var d: Draw :| |d| == length && Candidate(d) == s;
    assert HasFresh(existing, [d]) by {
      assert [d][0] == d;
    }
  }
}
