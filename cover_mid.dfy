/**
 * The serial-number extractor of get-ip-and-serial.py: the group of the
 * leftmost match of the pattern `var\s+cover_mid\s*=\s*"(\d+)"` in the
 * status page, as `re.search(...).group(1)` returns it.
 *
 * MatchAt reads the pattern at one position the way the regular expression
 * engine does; because no `\s` run can be followed by a space and no `\d`
 * run by a digit, taking each run as long as possible is the only way to
 * match, and PatternAt states the pattern's language without any such
 * strategy. MatchAtSound and MatchAtComplete show the two agree.
 */
module CoverMid {
  import opened Wrappers
  import opened Decimal

  /** Python's `\s` in a str pattern: exactly the characters `str.isspace()` accepts. */
  predicate IsSpace(c: char) {
    || ('\t' <= c <= '\r')
    || ('\U{1C}' <= c <= '\U{1F}')
    || c == ' ' || c == '\U{85}' || c == '\U{A0}' || c == '\U{1680}'
    || ('\U{2000}' <= c <= '\U{200A}')
    || c == '\U{2028}' || c == '\U{2029}' || c == '\U{202F}' || c == '\U{205F}' || c == '\U{3000}'
  }

  /** The end of the run of spaces starting at `i`. */
  function SkipSpaces(s: string, i: nat): (j: nat)
    requires i <= |s|
    ensures i <= j <= |s|
    ensures forall k :: i <= k < j ==> IsSpace(s[k])
    ensures j < |s| ==> !IsSpace(s[j])
    decreases |s| - i
  {
    if i < |s| && IsSpace(s[i]) then SkipSpaces(s, i + 1) else i
  }

  /** The end of the run of digits starting at `i`. */
  function SkipDigits(s: string, i: nat): (j: nat)
    requires i <= |s|
    ensures i <= j <= |s|
    ensures forall k :: i <= k < j ==> IsDigit(s[k])
    ensures j < |s| ==> !IsDigit(s[j])
    decreases |s| - i
  {
    if i < |s| && IsDigit(s[i]) then SkipDigits(s, i + 1) else i
  }

  /** The pattern read at position `p`: its digit group, or None when it does not match there. */
  function MatchAt(s: string, p: nat): (m: Option<string>)
    requires p <= |s|
    ensures m.Some? ==> |m.value| > 0 && AllDigits(m.value)
  {
    if !(p + 3 <= |s| && s[p..p + 3] == "var") then None
    else
      var a := SkipSpaces(s, p + 3);
      if a == p + 3 || !(a + 9 <= |s| && s[a..a + 9] == "cover_mid") then None
      else
        var b := SkipSpaces(s, a + 9);
        if !(b < |s| && s[b] == '=') then None
        else
          var c := SkipSpaces(s, b + 1);
          if !(c < |s| && s[c] == '"') then None
          else
            var e := SkipDigits(s, c + 1);
            if e == c + 1 || e == |s| || s[e] != '"' then None
            else Some(s[c + 1..e])
  }

  /**
   * The pieces of one match starting at `p`: "var" at p, spaces up to `a`
   * (at least one), "cover_mid" at a, spaces up to `b`, '=' at b, spaces up
   * to `c`, '"' at c, digits up to `e` (at least one), '"' at e.
   */
  ghost predicate Splits(s: string, p: nat, a: nat, b: nat, c: nat, e: nat) {
    && p + 3 < a && a + 9 <= b && b < c && c + 1 < e < |s|
    && s[p..p + 3] == "var"
    && (forall k :: p + 3 <= k < a ==> IsSpace(s[k]))
    && s[a..a + 9] == "cover_mid"
    && (forall k :: a + 9 <= k < b ==> IsSpace(s[k]))
    && s[b] == '='
    && (forall k :: b + 1 <= k < c ==> IsSpace(s[k]))
    && s[c] == '"'
    && (forall k :: c + 1 <= k < e ==> IsDigit(s[k]))
    && s[e] == '"'
  }

  /** The pattern matches at `p` with digit group `d`. */
  ghost predicate PatternAt(s: string, p: nat, d: string) {
    exists a: nat, b: nat, c: nat, e: nat :: Splits(s, p, a, b, c, e) && d == s[c + 1..e]
  }

  lemma MatchAtSound(s: string, p: nat)
    requires p <= |s|
    ensures MatchAt(s, p).Some? ==> PatternAt(s, p, MatchAt(s, p).value)
  {
    if MatchAt(s, p).Some? {
      var a := SkipSpaces(s, p + 3);
      var b := SkipSpaces(s, a + 9);
      var c := SkipSpaces(s, b + 1);
      var e := SkipDigits(s, c + 1);
      assert Splits(s, p, a, b, c, e);
    }
  }

  /** A run of spaces ending before a non-space is exactly what SkipSpaces skips. */
  lemma SkipSpacesStopsAt(s: string, i: nat, j: nat)
    requires i <= j < |s| && !IsSpace(s[j])
    requires forall k :: i <= k < j ==> IsSpace(s[k])
    ensures SkipSpaces(s, i) == j
  {
  }

  lemma SkipDigitsStopsAt(s: string, i: nat, j: nat)
    requires i <= j < |s| && !IsDigit(s[j])
    requires forall k :: i <= k < j ==> IsDigit(s[k])
    ensures SkipDigits(s, i) == j
  {
  }

  lemma MatchAtComplete(s: string, p: nat, a: nat, b: nat, c: nat, e: nat)
    requires Splits(s, p, a, b, c, e)
    ensures MatchAt(s, p) == Some(s[c + 1..e])
  {
    assert s[a] == "cover_mid"[0];
    SkipSpacesStopsAt(s, p + 3, a);
    SkipSpacesStopsAt(s, a + 9, b);
    SkipSpacesStopsAt(s, b + 1, c);
    SkipDigitsStopsAt(s, c + 1, e);
  }

  /** `re.search`: the first position from `p` on where the pattern matches. */
  function SearchFrom(s: string, p: nat): (m: Option<string>)
    requires p <= |s|
    decreases |s| - p
  {
    match MatchAt(s, p)
    case Some(d) => Some(d)
    case None => if p == |s| then None else SearchFrom(s, p + 1)
  }

  /** The serial number in a status page: `match.group(1)` if the pattern occurs, else None. */
  function ExtractCoverMid(text: string): (serial: Option<string>)
    ensures serial.Some? ==> |serial.value| > 0 && AllDigits(serial.value)
  {
    SearchFromDigits(text, 0);
    SearchFrom(text, 0)
  }

  lemma {:induction false} SearchFromDigits(s: string, p: nat)
    requires p <= |s|
    ensures SearchFrom(s, p).Some? ==> |SearchFrom(s, p).value| > 0 && AllDigits(SearchFrom(s, p).value)
    decreases |s| - p
  {
    if MatchAt(s, p).None? && p < |s| {
      SearchFromDigits(s, p + 1);
    }
  }

  /** The position where SearchFrom finds its match: no earlier position from `p` on matches. */
  lemma {:induction false} SearchFromLeftmost(s: string, p: nat) returns (q: nat)
    requires p <= |s| && SearchFrom(s, p).Some?
    ensures p <= q <= |s| && MatchAt(s, q) == SearchFrom(s, p)
    ensures forall r :: p <= r < q ==> MatchAt(s, r).None?
    decreases |s| - p
  {
    if MatchAt(s, p).Some? {
      q := p;
    } else {
      q := SearchFromLeftmost(s, p + 1);
    }
  }

  /** SearchFrom finds nothing only when no position from `p` on matches. */
  lemma {:induction false} SearchFromNone(s: string, p: nat)
    requires p <= |s| && SearchFrom(s, p).None?
    ensures forall r :: p <= r <= |s| ==> MatchAt(s, r).None?
    decreases |s| - p
  {
    if p < |s| {
      SearchFromNone(s, p + 1);
    }
  }

  /**
   * What `re.search(r'var\s+cover_mid\s*=\s*"(\d+)"', text).group(1)` returns:
   * the digit group of the leftmost occurrence of the pattern, and None
   * exactly when the pattern occurs nowhere.
   */
  lemma ExtractCoverMidIsLeftmostMatch(text: string)
    ensures ExtractCoverMid(text).Some? ==>
      exists p :: 0 <= p <= |text| && PatternAt(text, p, ExtractCoverMid(text).value)
                  && forall q, d :: 0 <= q < p ==> !PatternAt(text, q, d)
    ensures ExtractCoverMid(text).None? <==> forall p, d :: 0 <= p <= |text| ==> !PatternAt(text, p, d)
  {
    forall p, d | 0 <= p <= |text| && PatternAt(text, p, d)
      ensures MatchAt(text, p) == Some(d)
    {
      var a: nat, b: nat, c: nat, e: nat :| Splits(text, p, a, b, c, e) && d == text[c + 1..e];
      MatchAtComplete(text, p, a, b, c, e);
    }
    if ExtractCoverMid(text).Some? {
      var first := SearchFromLeftmost(text, 0);
      MatchAtSound(text, first);
    } else {
      SearchFromNone(text, 0);
      forall p, d | 0 <= p <= |text|
        ensures !PatternAt(text, p, d)
      {
        MatchAtSound(text, p);
      }
    }
  }

  /** The line the inverter's status page carries: `var cover_mid = "<digits>";`. */
  function CoverMidLine(serial: string): string {
    "var cover_mid = \"" + serial + "\";"
  }

  /** A page that starts with the status line yields exactly its serial number. */
  lemma ExtractCoverMidLine(serial: string, rest: string)
    requires |serial| > 0 && AllDigits(serial)
    ensures ExtractCoverMid(CoverMidLine(serial) + rest) == Some(serial)
  {
    var s := CoverMidLine(serial) + rest;
    var e := 17 + |serial|;
    assert s[..3] == "var";
    assert s[4..13] == "cover_mid";
    assert s[17..e] == serial;
    assert Splits(s, 0, 4, 14, 16, e);
    MatchAtComplete(s, 0, 4, 14, 16, e);
  }
}
