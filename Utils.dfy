/** `src/utils.rs`: turning a relative path into one flat, URL-safe file name,
    and the walk filter that skips hidden directories. */
module Utils {
  import opened Strings

  /** Characters `sanitize_filename` copies unchanged. */
  predicate PassesThrough(c: char) {
    IsAlphanumeric(c) || c == '.' || c == '-' || c == '_'
  }

  /** Both path separators become `-` before anything else happens. */
  function Flatten(c: char): char {
    if c == '/' || c == '\\' then '-' else c
  }

  /** `format!("{:04x}", c as u32)`: lower-case hexadecimal, at least four digits. */
  function Hex4(c: char): (r: string)
    ensures |r| >= 4
  {
    PadLeft(Digits(c as nat, 16), 4, '0')
  }

  /** What the loop pushes for one (already flattened) character. */
  function EscapeChar(c: char): string {
    if PassesThrough(c) then [c] else "-u" + Hex4(c)
  }

  /** The escaping loop over a flattened path. */
  function EscapeAll(p: string): string
    decreases |p|
  {
    if |p| == 0 then "" else EscapeAll(p[..|p| - 1]) + EscapeChar(p[|p| - 1])
  }

  /** `path.replace("/", "-").replace("\\", "-")`. */
  function Flattened(path: string): string {
    ReplaceAll(ReplaceAll(path, "/", "-"), "\\", "-")
  }

  /** The value `sanitize_filename(path)` returns. */
  function Sanitized(path: string): string {
    EscapeAll(Flattened(path))
  }

  /** `sanitize_filename`: builds the result by pushing one piece per character. */
  method SanitizeFilename(path: string) returns (sanitized: string)
    ensures sanitized == Sanitized(path)
    ensures forall i :: 0 <= i < |sanitized| ==> PassesThrough(sanitized[i])
  {
    var p := ReplaceAll(ReplaceAll(path, "/", "-"), "\\", "-");
    sanitized := EscapeLoop(p);
    assert sanitized == Sanitized(path);
    SanitizedAlphabet(path);
    // the source's closing `replace('/', "-")` finds nothing to replace
    NothingToReplace(sanitized);
    sanitized := ReplaceAll(sanitized, "/", "-");
  }

  /** The loop of `sanitize_filename`. */
  method EscapeLoop(p: string) returns (sanitized: string)
    ensures sanitized == EscapeAll(p)
  {
    sanitized := "";
    for i := 0 to |p|
      invariant sanitized == EscapeAll(p[..i])
    {
      var c := p[i];
      if IsAlphanumeric(c) || c == '.' || c == '-' || c == '_' {
        sanitized := sanitized + [c];
      } else {
        sanitized := sanitized + "-u" + PadLeft(Digits(c as nat, 16), 4, '0');
      }
      assert p[..i + 1][..i] == p[..i];
    }
    assert p[..|p|] == p;
  }

  /** Text of pass-through characters holds no `/` to replace. */
  lemma {:induction false} NothingToReplace(s: string)
    requires forall i :: 0 <= i < |s| ==> PassesThrough(s[i])
    ensures ReplaceAll(s, "/", "-") == s
  {
    forall k: nat ensures !OccursAt(s, "/", k) {
      if k + 1 <= |s| {
        assert s[k] != '/';
        assert s[k..k + 1] == [s[k]];
      }
    }
    ReplaceAllAbsent(s, "/", "-");
  }

  lemma {:induction false} EscapeAllAlphabet(p: string)
    ensures forall i :: 0 <= i < |EscapeAll(p)| ==> PassesThrough(EscapeAll(p)[i])
    decreases |p|
  {
    if |p| > 0 {
      EscapeAllAlphabet(p[..|p| - 1]);
      var c := p[|p| - 1];
      if !PassesThrough(c) {
        var h := Digits(c as nat, 16);
        assert forall i :: 0 <= i < |Hex4(c)| ==> PassesThrough(Hex4(c)[i]) by {
          forall i | 0 <= i < |Hex4(c)| ensures PassesThrough(Hex4(c)[i]) {
            if i >= |Hex4(c)| - |h| {
              assert Hex4(c)[i] == h[i - (|Hex4(c)| - |h|)];
            }
          }
        }
      }
    }
  }

  /** Every character of the result is alphanumeric, `.`, `-` or `_`; in
      particular it holds no `/` and no `\`. */
  lemma SanitizedAlphabet(path: string)
    ensures forall i :: 0 <= i < |Sanitized(path)| ==> PassesThrough(Sanitized(path)[i])
    ensures forall i :: 0 <= i < |Sanitized(path)| ==>
              Sanitized(path)[i] != '/' && Sanitized(path)[i] != '\\'
  {
    EscapeAllAlphabet(Flattened(path));
  }

  /** Flattening maps every character on its own. */
  lemma FlattenedPointwise(path: string)
    ensures |Flattened(path)| == |path|
    ensures forall i :: 0 <= i < |path| ==> Flattened(path)[i] == Flatten(path[i])
  {
    ReplaceCharPointwise(path, '/', '-');
    ReplaceCharPointwise(ReplaceAll(path, "/", "-"), '\\', '-');
  }

  lemma {:induction false} EscapeAllConcat(a: string, b: string)
    ensures EscapeAll(a + b) == EscapeAll(a) + EscapeAll(b)
    decreases |b|
  {
    if |b| > 0 {
      var b' := b[..|b| - 1];
      assert (a + b)[..|a + b| - 1] == a + b';
      EscapeAllConcat(a, b');
    } else {
      assert a + b == a;
    }
  }

  /** Sanitizing works character by character: the result for a concatenation is
      the concatenation of the results. */
  lemma SanitizedConcat(a: string, b: string)
    ensures Sanitized(a + b) == Sanitized(a) + Sanitized(b)
  {
    FlattenedPointwise(a);
    FlattenedPointwise(b);
    FlattenedPointwise(a + b);
    assert Flattened(a + b) == Flattened(a) + Flattened(b);
    EscapeAllConcat(Flattened(a), Flattened(b));
  }

  /** One character: a separator becomes `-`, an allowed character is copied, and
      any other character `c` becomes `-u` followed by the code point of `c` in
      lower-case hexadecimal, zero-padded to at least four digits. */
  lemma SanitizedChar(c: char)
    ensures c == '/' || c == '\\' ==> Sanitized([c]) == "-"
    ensures c != '/' && c != '\\' && PassesThrough(c) ==> Sanitized([c]) == [c]
    ensures !PassesThrough(c) && c != '/' && c != '\\' ==>
              exists h :: Sanitized([c]) == "-u" + h && |h| >= 4 && HexValue(h) == c as nat
  {
    FlattenedPointwise([c]);
    assert Flattened([c]) == [Flatten(c)];
    assert EscapeAll([Flatten(c)]) == EscapeAll([]) + EscapeChar(Flatten(c));
    if !PassesThrough(c) && c != '/' && c != '\\' {
      HexRoundTrip(c);
      assert Sanitized([c]) == "-u" + Hex4(c);
    }
  }

  function HexDigitValue(d: char): nat {
    if '0' <= d <= '9' then d as nat - '0' as nat
    else if 'a' <= d <= 'f' then d as nat - 'a' as nat + 10
    else 0
  }

  /** The number a string of hexadecimal digits denotes (leading zeros allowed). */
  function HexValue(h: string): nat {
    if |h| == 0 then 0 else 16 * HexValue(h[..|h| - 1]) + HexDigitValue(h[|h| - 1])
  }

  lemma {:induction false} DigitsValue(n: nat)
    ensures HexValue(Digits(n, 16)) == n
  {
    if n >= 16 {
      DigitsValue(n / 16);
      var d := Digits(n, 16);
      assert d[..|d| - 1] == Digits(n / 16, 16);
    }
  }

  lemma {:induction false} ZerosValue(k: nat, h: string)
    ensures HexValue(seq(k, _ => '0') + h) == HexValue(h)
    decreases |h|
  {
    if |h| == 0 {
      ZerosOnly(k);
      assert seq(k, _ => '0') + h == seq(k, _ => '0');
    } else {
      var z := seq(k, _ => '0');
      assert (z + h)[..|z + h| - 1] == z + h[..|h| - 1];
      ZerosValue(k, h[..|h| - 1]);
    }
  }

  lemma {:induction false} ZerosOnly(k: nat)
    ensures HexValue(seq(k, _ => '0')) == 0
  {
    if k > 0 {
      assert seq(k, _ => '0')[..k - 1] == seq(k - 1, _ => '0');
      ZerosOnly(k - 1);
    }
  }

  /** The escape of `c` spells out exactly the code point of `c`. */
  lemma HexRoundTrip(c: char)
    ensures HexValue(Hex4(c)) == c as nat
  {
    var d := Digits(c as nat, 16);
    DigitsValue(c as nat);
    if |d| < 4 {
      assert Hex4(c) == seq(4 - |d|, _ => '0') + d;
      ZerosValue(4 - |d|, d);
    }
  }

  /** The result is never shorter than the input. */
  lemma SanitizedLength(path: string)
    ensures |Sanitized(path)| >= |path|
  {
    FlattenedPointwise(path);
    EscapeAllLength(Flattened(path));
  }

  lemma {:induction false} EscapeAllLength(p: string)
    ensures |EscapeAll(p)| >= |p|
    decreases |p|
  {
    if |p| > 0 {
      EscapeAllLength(p[..|p| - 1]);
    }
  }

  lemma {:induction false} EscapeAllIdentity(p: string)
    requires forall i :: 0 <= i < |p| ==> PassesThrough(p[i])
    ensures EscapeAll(p) == p
    decreases |p|
  {
    if |p| > 0 {
      EscapeAllIdentity(p[..|p| - 1]);
    }
  }

  /** Text made only of allowed characters is its own sanitized form. */
  lemma SanitizedIdentity(p: string)
    requires forall i :: 0 <= i < |p| ==> PassesThrough(p[i])
    ensures Sanitized(p) == p
  {
    FlattenedPointwise(p);
    assert Flattened(p) == p;
    EscapeAllIdentity(p);
  }

  /** Text whose only disallowed characters are separators just has each
      separator turned into `-`. */
  lemma SanitizedSeparatorsOnly(p: string)
    requires forall i :: 0 <= i < |p| ==> PassesThrough(p[i]) || p[i] == '/' || p[i] == '\\'
    ensures |Sanitized(p)| == |p|
    ensures forall i :: 0 <= i < |p| ==> Sanitized(p)[i] == Flatten(p[i])
  {
    FlattenedPointwise(p);
    EscapeAllIdentity(Flattened(p));
  }

  /** Sanitizing twice is sanitizing once. */
  lemma SanitizedIdempotent(path: string)
    ensures Sanitized(Sanitized(path)) == Sanitized(path)
  {
    SanitizedAlphabet(path);
    SanitizedIdentity(Sanitized(path));
  }

  /** `is_not_hidden_dir`: a directory is kept unless its name starts with `.`;
      any other entry is always kept. */
  function IsNotHiddenDir(name: string, isDir: bool): (kept: bool)
    ensures !kept <==> isDir && |name| > 0 && name[0] == '.'
  {
    if isDir then !StartsWith(name, ".") else true
  }
}
