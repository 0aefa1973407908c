/** The string operations the passcode store relies on, restricted to ASCII:
    `String.prototype.toLowerCase` on the letters A-Z, `String.prototype.trim`
    on the ASCII white-space characters, and `String(n)` on natural numbers. */
module AsciiText {

  /** The ASCII characters `trim` removes: tab, line feed, vertical tab, form feed,
      carriage return and space. */
  predicate IsSpace(c: char)
  {
    c == ' ' || c == '\t' || c == '\n' || c == '\r' || c == '\U{000B}' || c == '\U{000C}'
  }

  function LowerChar(c: char): (d: char)
    ensures 'A' <= c <= 'Z' ==> 'a' <= d <= 'z' && d as int == c as int + 32
    ensures !('A' <= c <= 'Z') ==> d == c
  {
    if 'A' <= c <= 'Z' then (c as int + 32) as char else c
  }

  /** A string on which lower-casing has no effect. */
  predicate IsLowered(s: string)
  {
    forall i :: 0 <= i < |s| ==> LowerChar(s[i]) == s[i]
  }

  /** `s.toLowerCase()` for ASCII letters; every other character is kept. */
  function ToLower(s: string): (r: string)
    ensures |r| == |s|
    ensures forall i :: 0 <= i < |s| ==> r[i] == LowerChar(s[i])
    ensures IsLowered(r)
  {
    seq(|s|, i requires 0 <= i < |s| => LowerChar(s[i]))
  }

  /** Drops the leading white space (`TrimStartShape` says what it keeps). */
  function TrimStart(s: string): string
  {
    if s != [] && IsSpace(s[0]) then TrimStart(s[1..]) else s
  }

  /** Drops the trailing white space (`TrimEndShape` says what it keeps). */
  function TrimEnd(s: string): string
  {
    if s != [] && IsSpace(s[|s| - 1]) then TrimEnd(s[..|s| - 1]) else s
  }

  /** What `TrimStart` drops is all white space; what it keeps is a suffix that does
      not start with white space. */
  lemma {:induction false} TrimStartShape(s: string)
    ensures var r := TrimStart(s);
            && |r| <= |s| && r == s[|s| - |r|..]
            && (forall i :: 0 <= i < |s| - |r| ==> IsSpace(s[i]))
            && (r != [] ==> !IsSpace(r[0]))
  {
    if s != [] && IsSpace(s[0]) {
      var t := s[1..];
      TrimStartShape(t);
      var r := TrimStart(t);
      assert TrimStart(s) == r;
      assert t[|t| - |r|..] == s[|s| - |r|..];
      forall i | 0 <= i < |s| - |r| ensures IsSpace(s[i]) {
        if i > 0 {
          assert s[i] == t[i - 1];
        }
      }
    }
  }

  /** What `TrimEnd` drops is all white space; what it keeps is a prefix that does
      not end with white space. */
  lemma {:induction false} TrimEndShape(s: string)
    ensures var r := TrimEnd(s);
            && |r| <= |s| && r == s[..|r|]
            && (forall i :: |r| <= i < |s| ==> IsSpace(s[i]))
            && (r != [] ==> !IsSpace(r[|r| - 1]))
  {
    if s != [] && IsSpace(s[|s| - 1]) {
      var t := s[..|s| - 1];
      TrimEndShape(t);
      var r := TrimEnd(t);
      assert TrimEnd(s) == r;
      assert t[..|r|] == s[..|r|];
      forall i | |r| <= i < |s| ensures IsSpace(s[i]) {
        if i < |s| - 1 {
          assert s[i] == t[i];
        }
      }
    }
  }

  /** `s.trim()`: drops the white space at both ends; what is left neither starts
      nor ends with white space (`TrimIsSlice` says which slice of `s` it is). */
  function Trim(s: string): (r: string)
    ensures |r| <= |s|
    ensures r != [] ==> !IsSpace(r[0]) && !IsSpace(r[|r| - 1])
  {
    var t := TrimStart(s);
    TrimStartShape(s);
    var r := TrimEnd(t);
    TrimEndShape(t);
    assert r != [] ==> r[0] == t[0];
    r
  }

  /** The trim of `s` is the slice of `s` that starts after the leading white space,
      and everything outside that slice is white space. */
  lemma TrimIsSlice(s: string)
    ensures |Trim(s)| <= |TrimStart(s)| <= |s|
    ensures var start := |s| - |TrimStart(s)|;
            && start + |Trim(s)| <= |s|
            && Trim(s) == s[start..start + |Trim(s)|]
            && (forall i :: 0 <= i < start ==> IsSpace(s[i]))
            && (forall i :: start + |Trim(s)| <= i < |s| ==> IsSpace(s[i]))
  {
    TrimStartShape(s);
    TrimEndShape(TrimStart(s));
  }

  /** The key the passcode store files an address under: `email.toLowerCase().trim()`. */
  function Normalize(email: string): string
  {
    Trim(ToLower(email))
  }

  /** A normalised key is lower-case and has no white space at either end. */
  lemma NormalizeShape(email: string)
    ensures IsLowered(Normalize(email))
    ensures Normalize(email) != [] ==> !IsSpace(Normalize(email)[0]) && !IsSpace(Normalize(email)[|Normalize(email)| - 1])
  {
    var lowered := ToLower(email);
    TrimIsSlice(lowered);
    TrimStartShape(lowered);
    var start := |lowered| - |TrimStart(lowered)|;
    SliceOfLowered(lowered, start, start + |Trim(lowered)|);
  }

  /** The key is the lower-cased address with the white space at both ends cut off:
      a slice of the lower-cased address, outside of which the address itself holds
      only white space. */
  lemma NormalizeIsSlice(email: string)
    ensures |Normalize(email)| <= |TrimStart(ToLower(email))| <= |email|
    ensures var key := Normalize(email);
            var start := |email| - |TrimStart(ToLower(email))|;
            && start + |key| <= |email|
            && key == ToLower(email)[start..start + |key|]
            && (forall i :: 0 <= i < start ==> IsSpace(email[i]))
            && (forall i :: start + |key| <= i < |email| ==> IsSpace(email[i]))
  {
    var lowered := ToLower(email);
    TrimIsSlice(lowered);
    forall i | 0 <= i < |email| && IsSpace(lowered[i]) ensures IsSpace(email[i]) {
      assert lowered[i] == LowerChar(email[i]);
    }
  }

  lemma SliceOfLowered(s: string, i: nat, j: nat)
    requires IsLowered(s) && i <= j <= |s|
    ensures IsLowered(s[i..j])
  {
    forall k | 0 <= k < j - i ensures LowerChar(s[i..j][k]) == s[i..j][k] {
      assert s[i..j][k] == s[i + k];
    }
  }

  lemma ToLowerOfLowered(s: string)
    requires IsLowered(s)
    ensures ToLower(s) == s
  {
  }

  /** A string that neither starts nor ends with white space is its own trim. */
  lemma {:induction false} TrimOfTrimmed(s: string)
    requires s != [] ==> !IsSpace(s[0]) && !IsSpace(s[|s| - 1])
    ensures Trim(s) == s
  {
    assert TrimStart(s) == s;
    assert TrimEnd(s) == s;
  }

  lemma TrimStartSkipsSpace(before: char, t: string)
    requires IsSpace(before)
    ensures TrimStart([before] + t) == TrimStart(t)
  {
    assert ([before] + t)[1..] == t;
  }

  lemma TrimEndSkipsSpace(t: string, after: char)
    requires IsSpace(after)
    ensures TrimEnd(t + [after]) == TrimEnd(t)
  {
    assert (t + [after])[..|t|] == t;
  }

  /** White space around a trimmed core is exactly what trimming removes. */
  lemma TrimPadded(before: char, core: string, after: char)
    requires IsSpace(before) && IsSpace(after)
    requires core != [] ==> !IsSpace(core[0]) && !IsSpace(core[|core| - 1])
    ensures Trim([before] + core + [after]) == core
  {
    var tail := core + [after];
    assert [before] + core + [after] == [before] + tail;
    TrimStartSkipsSpace(before, tail);
    if core == [] {
      TrimStartSkipsSpace(after, []);
    } else {
      assert TrimStart(tail) == tail;
      TrimEndSkipsSpace(core, after);
      assert TrimEnd(core) == core;
    }
  }

  lemma TrimIdempotent(s: string)
    ensures Trim(Trim(s)) == Trim(s)
  {
    TrimOfTrimmed(Trim(s));
  }

  /** Normalising a key again leaves it as it is, so passing an already-normalised
      key names the same entry as the address it came from. */
  lemma NormalizeIdempotent(email: string)
    ensures Normalize(Normalize(email)) == Normalize(email)
  {
    var key := Normalize(email);
    NormalizeShape(email);
    ToLowerOfLowered(key);
    TrimOfTrimmed(key);
  }

  // ---------------------------------------------------------------------------
  // Decimal rendering of natural numbers, as `String(n)` produces it.

  predicate IsDigit(c: char)
  {
    '0' <= c <= '9'
  }

  predicate AllDigits(s: string)
  {
    forall i :: 0 <= i < |s| ==> IsDigit(s[i])
  }

  function DigitChar(d: nat): (c: char)
    requires d < 10
    ensures IsDigit(c) && c as int - '0' as int == d
  {
    ('0' as int + d) as char
  }

  /** `String(n)` for a natural number: its digits, most significant first, with no
      leading zero. */
  function DecimalString(n: nat): (s: string)
    ensures |s| >= 1 && AllDigits(s)
    ensures n > 0 ==> s[0] != '0'
  {
    if n < 10 then [DigitChar(n)] else DecimalString(n / 10) + [DigitChar(n % 10)]
  }

  /** The number a string of decimal digits denotes, the inverse of `DecimalString`. */
  function DecimalValue(s: string): nat
    requires AllDigits(s)
  {
    if s == [] then 0 else DecimalValue(s[..|s| - 1]) * 10 + (s[|s| - 1] as int - '0' as int)
  }

  lemma {:induction false} DecimalRoundTrip(n: nat)
    ensures DecimalValue(DecimalString(n)) == n
  {
    if n >= 10 {
      var s := DecimalString(n);
      assert s[..|s| - 1] == DecimalString(n / 10);
      DecimalRoundTrip(n / 10);
    }
  }

  function Pow10(k: nat): (p: nat)
    ensures p >= 1
  {
    if k == 0 then 1 else 10 * Pow10(k - 1)
  }

  /** A number of `k` digits is rendered with exactly `k` characters. */
  lemma {:induction false} DecimalLength(n: nat, k: nat)
    requires 1 <= k && Pow10(k - 1) <= n < Pow10(k)
    ensures |DecimalString(n)| == k
  {
    if k > 1 {
      DecimalLength(n / 10, k - 1);
    } else {
      assert n < 10;
    }
  }
}
