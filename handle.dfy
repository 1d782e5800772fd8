/** The handle rules shared by the server and the mobile client: the length
    bounds, the pattern `^[a-z0-9._]+$`, and the normalisation
    `trim().toLowerCase()`. Lengths are JavaScript lengths, in UTF-16 code
    units. */
module Handle {

  const HandleMinLength: nat := 3
  const HandleMaxLength: nat := 30

  /** One character of the class `[a-z0-9._]`. */
  predicate IsHandleChar(c: char) {
    'a' <= c <= 'z' || '0' <= c <= '9' || c == '.' || c == '_'
  }

  /** `^[a-z0-9._]+$`: at least one character, all from the class. */
  predicate MatchesHandlePattern(s: string) {
    |s| > 0 && forall i :: 0 <= i < |s| ==> IsHandleChar(s[i])
  }

  /** `s.length`: characters outside the Basic Multilingual Plane take two code units. */
  function Utf16Length(s: string): (n: nat)
    ensures n >= |s|
    ensures (forall i :: 0 <= i < |s| ==> s[i] as int < 0x1_0000) ==> n == |s|
  {
    if s == [] then 0 else (if s[0] as int < 0x1_0000 then 1 else 2) + Utf16Length(s[1..])
  }

  /** The server's check on a normalised handle: length 3..30 and the pattern. */
  predicate IsValidHandle(h: string) {
    HandleMinLength <= Utf16Length(h) <= HandleMaxLength && MatchesHandlePattern(h)
  }

  lemma {:induction false} PatternMeansAscii(s: string)
    requires MatchesHandlePattern(s)
    ensures Utf16Length(s) == |s|
  {
    assert forall i :: 0 <= i < |s| ==> s[i] as int < 0x1_0000 by {
      forall i | 0 <= i < |s|
        ensures s[i] as int < 0x1_0000
      {
        assert IsHandleChar(s[i]);
      }
    }
  }

  // ---------------------------------------------------------------------------
  // trim()
  // ---------------------------------------------------------------------------

  /** What `String.prototype.trim` removes: white space (including every space
      separator) and line terminators. */
  predicate IsTrimmable(c: char) {
    || '\U{0009}' <= c <= '\U{000D}'
    || c == ' ' || c == '\U{00A0}' || c == '\U{1680}'
    || '\U{2000}' <= c <= '\U{200A}'
    || c == '\U{2028}' || c == '\U{2029}' || c == '\U{202F}' || c == '\U{205F}'
    || c == '\U{3000}' || c == '\U{FEFF}'
  }

  /** `s` without its leading trimmable characters. */
  function TrimStart(s: string): (t: string)
    ensures |t| <= |s| && t == s[|s| - |t|..]
    ensures forall i :: 0 <= i < |s| - |t| ==> IsTrimmable(s[i])
    ensures t == [] || !IsTrimmable(t[0])
  {
    if s != [] && IsTrimmable(s[0]) then TrimStart(s[1..]) else s
  }

  /** `s` without its trailing trimmable characters. */
  function TrimEnd(s: string): (t: string)
    ensures |t| <= |s| && t == s[..|t|]
    ensures forall i :: |t| <= i < |s| ==> IsTrimmable(s[i])
    ensures t == [] || !IsTrimmable(t[|t| - 1])
  {
    if s != [] && IsTrimmable(s[|s| - 1]) then TrimEnd(s[..|s| - 1]) else s
  }

  /** `trim()`. */
  function Trim(s: string): (t: string)
    ensures t == [] || (!IsTrimmable(t[0]) && !IsTrimmable(t[|t| - 1]))
  {
    TrimEnd(TrimStart(s))
  }

  /** A string that neither starts nor ends with a trimmable character is its own trim. */
  lemma {:induction false} TrimOfTrimmed(s: string)
    requires s == [] || (!IsTrimmable(s[0]) && !IsTrimmable(s[|s| - 1]))
    ensures Trim(s) == s
  {
  }

  /** `trim()` keeps a contiguous middle of the input and drops only trimmable
      characters around it. */
  lemma {:induction false} TrimIsMiddle(s: string) returns (a: nat, b: nat)
    ensures a <= b <= |s| && Trim(s) == s[a..b]
    ensures forall i :: 0 <= i < a ==> IsTrimmable(s[i])
    ensures forall i :: b <= i < |s| ==> IsTrimmable(s[i])
  {
    var u := TrimStart(s);
    var t := TrimEnd(u);
    a := |s| - |u|;
    b := a + |t|;
    PrefixOfSuffix(s, a, u, |t|);
    TrimmableTail(s, a, u, |t|);
  }

  /** A prefix of a suffix is a slice. */
  lemma {:induction false} PrefixOfSuffix(s: string, a: nat, u: string, n: nat)
    requires a <= |s| && u == s[a..] && n <= |u|
    ensures s[a..a + n] == u[..n]
  {
    forall i | 0 <= i < n
      ensures s[a..a + n][i] == u[..n][i]
    {
      assert s[a + i] == u[i];
    }
  }

  /** What is trimmable past position `n` of a suffix is trimmable in the whole string. */
  lemma {:induction false} TrimmableTail(s: string, a: nat, u: string, n: nat)
    requires a <= |s| && u == s[a..] && n <= |u|
    requires forall i :: n <= i < |u| ==> IsTrimmable(u[i])
    ensures forall i :: a + n <= i < |s| ==> IsTrimmable(s[i])
  {
    forall i | a + n <= i < |s|
      ensures IsTrimmable(s[i])
    {
      assert s[i] == u[i - a];
    }
  }

  // ---------------------------------------------------------------------------
  // toLowerCase()
  // ---------------------------------------------------------------------------

  /** `toLowerCase` on one character, for the characters whose lower-case form
      can belong to `[a-z0-9._]`: `A`..`Z` and the KELVIN SIGN U+212A, which
      lower-cases to `k`. Every other character is kept; its lower-case form
      lies outside the class either way. */
  function LowerChar(c: char): (d: char)
    ensures IsHandleChar(d) ==> IsHandleChar(c) || ('A' <= c <= 'Z') || c == '\U{212A}'
    ensures !IsTrimmable(c) ==> !IsTrimmable(d)
    ensures IsTrimmable(c) ==> d == c
  {
    if 'A' <= c <= 'Z' then (c as int + 32) as char
    else if c == '\U{212A}' then 'k'
    else c
  }

  /** `toLowerCase()`, character by character. */
  function ToLowerCase(s: string): (t: string)
    ensures |t| == |s|
    ensures forall i :: 0 <= i < |s| ==> t[i] == LowerChar(s[i])
    ensures forall i :: 0 <= i < |t| ==> !('A' <= t[i] <= 'Z')
    ensures forall i :: 0 <= i < |t| && IsHandleChar(t[i]) ==> IsHandleChar(s[i]) || ('A' <= s[i] <= 'Z') || s[i] == '\U{212A}'
  {
    seq(|s|, i requires 0 <= i < |s| => LowerChar(s[i]))
  }

  lemma {:induction false} LowerCaseIsIdempotent(s: string)
    ensures ToLowerCase(ToLowerCase(s)) == ToLowerCase(s)
  {
    forall i | 0 <= i < |s|
      ensures ToLowerCase(ToLowerCase(s))[i] == ToLowerCase(s)[i]
    {
      var c := s[i];
      assert LowerChar(LowerChar(c)) == LowerChar(c);
    }
  }

  /** `trim().toLowerCase()`: the form `updateProfile` checks and stores. */
  function NormalizeHandle(raw: string): (h: string)
    ensures |h| <= |raw|
    ensures h == [] || (!IsTrimmable(h[0]) && !IsTrimmable(h[|h| - 1]))
  {
    ToLowerCase(Trim(raw))
  }

  /** Normalising twice changes nothing. */
  lemma {:induction false} NormalizeIsIdempotent(raw: string)
    ensures NormalizeHandle(NormalizeHandle(raw)) == NormalizeHandle(raw)
  {
    var h := NormalizeHandle(raw);
    TrimOfTrimmed(h);
    LowerCaseIsIdempotent(Trim(raw));
  }

  /** A handle already in normal form is stored exactly as typed. */
  lemma {:induction false} ValidHandleIsNormal(h: string)
    requires IsValidHandle(h)
    ensures NormalizeHandle(h) == h
  {
    TrimOfTrimmed(h);
    forall i | 0 <= i < |h|
      ensures ToLowerCase(h)[i] == h[i]
    {
      assert IsHandleChar(h[i]);
    }
    assert ToLowerCase(h) == h;
  }

  /** Trimmable padding on either side of a trimmed core is exactly what `trim()` removes. */
  lemma {:induction false} TrimOfPadded(pre: string, core: string, post: string)
    requires forall i :: 0 <= i < |pre| ==> IsTrimmable(pre[i])
    requires forall i :: 0 <= i < |post| ==> IsTrimmable(post[i])
    requires core != [] && !IsTrimmable(core[0]) && !IsTrimmable(core[|core| - 1])
    ensures Trim(pre + core + post) == core
  {
    var rest := core + post;
    assert rest[0] == core[0];
    assert pre + core + post == pre + rest;
    TrimStartOfPadded(pre, rest);
    TrimEndOfPadded(core, post);
    assert Trim(pre + rest) == TrimEnd(TrimStart(pre + rest));
  }

  lemma {:induction false} TrimStartOfPadded(pre: string, s: string)
    requires forall i :: 0 <= i < |pre| ==> IsTrimmable(pre[i])
    requires s != [] && !IsTrimmable(s[0])
    ensures TrimStart(pre + s) == s
    decreases |pre|
  {
    if pre != [] {
      assert (pre + s)[1..] == pre[1..] + s;
      TrimStartOfPadded(pre[1..], s);
    } else {
      assert pre + s == s;
    }
  }

  lemma {:induction false} TrimEndOfPadded(s: string, post: string)
    requires forall i :: 0 <= i < |post| ==> IsTrimmable(post[i])
    requires s != [] && !IsTrimmable(s[|s| - 1])
    ensures TrimEnd(s + post) == s
    decreases |post|
  {
    if post != [] {
      var shorter := post[..|post| - 1];
      assert (s + post)[..|s + post| - 1] == s + shorter;
      TrimEndOfPadded(s, shorter);
    } else {
      assert s + post == s;
    }
  }

  /** Case and surrounding white space are not part of a handle's identity. */
  lemma NormalizeExample()
    ensures NormalizeHandle(" Nila.Dev\n") == "nila.dev"
  {
    var core := "Nila.Dev";
    assert !IsTrimmable(core[0]) && !IsTrimmable(core[7]);
    assert " Nila.Dev\n" == " " + core + "\n";
    TrimOfPadded(" ", core, "\n");
    LowerExample();
  }

  lemma ValidExample()
    ensures IsValidHandle("nila.dev")
  {
    PatternMeansAscii("nila.dev");
  }

  lemma LowerExample()
    ensures ToLowerCase("Nila.Dev") == "nila.dev"
  {
    var lower := ToLowerCase("Nila.Dev");
    assert lower[0] == 'n' && lower[1] == 'i' && lower[2] == 'l' && lower[3] == 'a';
    assert lower[4] == '.' && lower[5] == 'd' && lower[6] == 'e' && lower[7] == 'v';
  }

  /** The KELVIN SIGN lower-cases into the class, so it can spell a handle. */
  lemma KelvinSignExample()
    ensures NormalizeHandle("\U{212A}im") == "kim"
  {
    TrimOfTrimmed("\U{212A}im");
    KelvinLower();
  }

  lemma KelvinLower()
    ensures ToLowerCase("\U{212A}im") == "kim"
  {
    var lower := ToLowerCase("\U{212A}im");
    assert lower[0] == 'k' && lower[1] == 'i' && lower[2] == 'm';
  }
}
