/** The JavaScript string operations the core relies on: `trim`, `toLowerCase` (ASCII only),
    `split`, `includes` and `startsWith`. Lengths are `|s|`. */
module Strings {

  /** ECMAScript WhiteSpace and LineTerminator code points: what `String.prototype.trim` removes. */
  predicate IsWhitespace(c: char) {
    || c == ' ' || c == '\t' || c == '\n' || c == '\r'
    || c == '\U{000B}' || c == '\U{000C}' || c == '\U{00A0}' || c == '\U{FEFF}'
    || c == '\U{1680}' || ('\U{2000}' <= c <= '\U{200A}')
    || c == '\U{2028}' || c == '\U{2029}' || c == '\U{202F}' || c == '\U{205F}' || c == '\U{3000}'
  }

  /** `trimStart`: the suffix left after dropping leading whitespace. */
  function TrimStart(s: string): (r: string)
    ensures |r| <= |s| && r == s[|s| - |r|..]
    ensures forall k :: 0 <= k < |s| - |r| ==> IsWhitespace(s[k])
    ensures r != [] ==> !IsWhitespace(r[0])
    decreases |s|
  {
    if |s| > 0 && IsWhitespace(s[0]) then TrimStart(s[1..]) else s
  }

  /** `trimEnd`: the prefix left after dropping trailing whitespace. */
  function TrimEnd(s: string): (r: string)
    ensures |r| <= |s| && r == s[..|r|]
    ensures forall k :: |r| <= k < |s| ==> IsWhitespace(s[k])
    ensures r != [] ==> !IsWhitespace(r[|r| - 1])
    decreases |s|
  {
    if |s| > 0 && IsWhitespace(s[|s| - 1]) then TrimEnd(s[..|s| - 1]) else s
  }

  /** `trim`: no leading and no trailing whitespace is left. */
  function Trim(s: string): (r: string)
    ensures |r| <= |s|
    ensures r != [] ==> !IsWhitespace(r[0]) && !IsWhitespace(r[|r| - 1])
  {
    TrimEnd(TrimStart(s))
  }

  /** `s.trim().length === 0`. */
  predicate IsBlank(s: string) {
    Trim(s) == []
  }

  /** A string is blank exactly when every character is whitespace. */
  lemma BlankIffAllWhitespace(s: string)
    ensures IsBlank(s) <==> forall k :: 0 <= k < |s| ==> IsWhitespace(s[k])
  {
    var t := TrimStart(s);
    if IsBlank(s) {
      forall k | 0 <= k < |s| ensures IsWhitespace(s[k]) {
        if k >= |s| - |t| {
          assert t[k - (|s| - |t|)] == s[k];
        }
      }
    } else {
      var r := Trim(s);
      assert r[0] == t[0] == s[|s| - |t|];
    }
  }

  /** A string with no whitespace at either end is its own trim. */
  lemma TrimOfTrimmed(s: string)
    requires s != [] ==> !IsWhitespace(s[0]) && !IsWhitespace(s[|s| - 1])
    ensures Trim(s) == s
  {
    TrimStartNoLead(s);
    TrimEndNoTrail(s);
  }

  lemma TrimStartNoLead(s: string)
    requires s != [] ==> !IsWhitespace(s[0])
    ensures TrimStart(s) == s
  {
  }

  lemma TrimEndNoTrail(s: string)
    requires s != [] ==> !IsWhitespace(s[|s| - 1])
    ensures TrimEnd(s) == s
  {
  }

  /** Trimming is idempotent. */
  lemma TrimIdempotent(s: string)
    ensures Trim(Trim(s)) == Trim(s)
  {
    TrimOfTrimmed(Trim(s));
  }

  /** A string that does not start with whitespace keeps its first character under `trim`. */
  lemma TrimKeepsHead(s: string)
    requires s != [] && !IsWhitespace(s[0])
    ensures Trim(s) != [] && Trim(s)[0] == s[0]
  {
    assert TrimStart(s) == s;
  }

  /** A string with no whitespace at all is unchanged by `trim`. */
  lemma TrimNoWhitespace(s: string)
    requires forall k :: 0 <= k < |s| ==> !IsWhitespace(s[k])
    ensures Trim(s) == s
  {
    TrimOfTrimmed(s);
  }

  /** `.map(l => l.trim())`. */
  function TrimEach(tokens: seq<string>): seq<string> {
    if tokens == [] then [] else [Trim(tokens[0])] + TrimEach(tokens[1..])
  }

  lemma {:induction false} TrimEachElements(tokens: seq<string>)
    ensures |TrimEach(tokens)| == |tokens|
    ensures forall i :: 0 <= i < |tokens| ==> TrimEach(tokens)[i] == Trim(tokens[i])
  {
    if tokens != [] {
      TrimEachElements(tokens[1..]);
    }
  }

  /** Trimming every element of a list of trimmed strings changes nothing. */
  lemma TrimEachOfTrimmed(tokens: seq<string>)
    requires forall i :: 0 <= i < |tokens| ==> Trim(tokens[i]) == tokens[i]
    ensures TrimEach(tokens) == tokens
  {
    TrimEachElements(tokens);
  }

  function LowerChar(c: char): char {
    if 'A' <= c <= 'Z' then (c as int + 32) as char else c
  }

  /** `toLowerCase`, restricted to ASCII letters. */
  function ToLower(s: string): string {
    seq(|s|, i requires 0 <= i < |s| => LowerChar(s[i]))
  }

  /** Lower-casing twice is lower-casing once. */
  lemma ToLowerIdempotent(s: string)
    ensures ToLower(ToLower(s)) == ToLower(s)
  {
  }

  /** `s.startsWith(p)`. */
  predicate StartsWith(s: string, p: string) {
    |p| <= |s| && s[..|p|] == p
  }

  /** `s.includes(sub)`. */
  predicate Contains(s: string, sub: string)
    decreases |s|
  {
    StartsWith(s, sub) || (|s| > 0 && Contains(s[1..], sub))
  }

  /** `'*'.repeat(n)`. */
  function Stars(n: nat): (r: string)
    ensures |r| == n
  {
    seq(n, _ => '*')
  }

  /** `s.split(re)` for a regular expression matching one character of `delims`, or `s.split(c)`
      with `delims == {c}`: the empty string gives `[""]`, adjacent delimiters give empty tokens. */
  function Split(s: string, delims: set<char>): (r: seq<string>)
    ensures |r| >= 1
    ensures forall i, k :: 0 <= i < |r| && 0 <= k < |r[i]| ==> r[i][k] !in delims
    decreases |s|
  {
    if |s| == 0 then [""]
    else
      var rest := Split(s[1..], delims);
      if s[0] in delims then [""] + rest
      else [[s[0]] + rest[0]] + rest[1..]
  }

  /** The delimiter characters of `s`, in order. */
  function Separators(s: string, delims: set<char>): (r: string)
    ensures forall i :: 0 <= i < |r| ==> r[i] in delims
    decreases |s|
  {
    if |s| == 0 then []
    else (if s[0] in delims then [s[0]] else []) + Separators(s[1..], delims)
  }

  /** Glue tokens back together, putting the i-th separator after the i-th token. */
  function Interleave(tokens: seq<string>, seps: string): string
    requires |tokens| == |seps| + 1
    decreases |seps|
  {
    if |seps| == 0 then tokens[0]
    else tokens[0] + [seps[0]] + Interleave(tokens[1..], seps[1..])
  }

  /** `split` loses nothing: there is one token more than there are delimiters, and putting
      the delimiters back between the tokens rebuilds the input. */
  lemma {:induction false} SplitRoundTrip(s: string, delims: set<char>)
    ensures |Split(s, delims)| == |Separators(s, delims)| + 1
    ensures Interleave(Split(s, delims), Separators(s, delims)) == s
    decreases |s|
  {
    if |s| > 0 {
      SplitRoundTrip(s[1..], delims);
      if s[0] in delims {
        RoundTripAtDelimiter(s, delims);
      } else {
        RoundTripAtCharacter(s, delims);
      }
    }
  }

  /** One step of `SplitRoundTrip` when the input starts with a delimiter. */
  lemma RoundTripAtDelimiter(s: string, delims: set<char>)
    requires |s| > 0 && s[0] in delims
    requires |Split(s[1..], delims)| == |Separators(s[1..], delims)| + 1
    requires Interleave(Split(s[1..], delims), Separators(s[1..], delims)) == s[1..]
    ensures |Split(s, delims)| == |Separators(s, delims)| + 1
    ensures Interleave(Split(s, delims), Separators(s, delims)) == s
  {
    var rest := Split(s[1..], delims);
    assert Split(s, delims) == [""] + rest;
    assert Separators(s, delims) == [s[0]] + Separators(s[1..], delims);
    assert ([""] + rest)[1..] == rest;
    assert [s[0]] + s[1..] == s;
  }

  /** One step of `SplitRoundTrip` when the input starts with an ordinary character. */
  lemma RoundTripAtCharacter(s: string, delims: set<char>)
    requires |s| > 0 && s[0] !in delims
    requires |Split(s[1..], delims)| == |Separators(s[1..], delims)| + 1
    requires Interleave(Split(s[1..], delims), Separators(s[1..], delims)) == s[1..]
    ensures |Split(s, delims)| == |Separators(s, delims)| + 1
    ensures Interleave(Split(s, delims), Separators(s, delims)) == s
  {
    var rest := Split(s[1..], delims);
    var seps := Separators(s[1..], delims);
    assert Split(s, delims) == [[s[0]] + rest[0]] + rest[1..];
    assert Separators(s, delims) == seps;
    InterleaveExtendHead(s[0], rest, seps);
    assert [s[0]] + s[1..] == s;
  }

  /** Growing the first token by one character at the front grows the glued string the same way. */
  lemma InterleaveExtendHead(c: char, tokens: seq<string>, seps: string)
    requires |tokens| == |seps| + 1
    ensures Interleave([[c] + tokens[0]] + tokens[1..], seps) == [c] + Interleave(tokens, seps)
  {
    var longer := [[c] + tokens[0]] + tokens[1..];
    if |seps| > 0 {
      assert longer[1..] == tokens[1..];
      assert Interleave(longer, seps) == [c] + tokens[0] + [seps[0]] + Interleave(tokens[1..], seps[1..]);
    }
  }

  /** The number of delimiters of one kind is the number of occurrences of that character. */
  lemma {:induction false} SeparatorsCount(s: string, c: char)
    ensures |Separators(s, {c})| == multiset(s)[c]
    decreases |s|
  {
    if |s| > 0 {
      SeparatorsCount(s[1..], c);
      assert s == [s[0]] + s[1..];
    }
  }

  /** The first token is everything before the first delimiter (`s.split('@')[0]`). */
  lemma {:induction false} SplitFirstToken(s: string, delims: set<char>)
    ensures Split(s, delims)[0] == s[..FirstDelimiter(s, delims)]
    decreases |s|
  {
    if |s| > 0 && s[0] !in delims {
      SplitFirstToken(s[1..], delims);
    }
  }

  /** Position of the first character of `s` in `delims`, or `|s|`. */
  function FirstDelimiter(s: string, delims: set<char>): (k: nat)
    ensures k <= |s|
    ensures forall j :: 0 <= j < k ==> s[j] !in delims
    ensures k < |s| ==> s[k] in delims
    decreases |s|
  {
    if |s| == 0 || s[0] in delims then 0 else 1 + FirstDelimiter(s[1..], delims)
  }

  /** A string without delimiters is a single token. */
  lemma {:induction false} SplitNoDelimiter(t: string, delims: set<char>)
    requires forall k :: 0 <= k < |t| ==> t[k] !in delims
    ensures Split(t, delims) == [t]
    decreases |t|
  {
    if |t| > 0 {
      SplitNoDelimiter(t[1..], delims);
      assert [t[0]] + t[1..] == t;
    }
  }

  /** A delimiter-free token followed by a delimiter is split off as the first token. */
  lemma {:induction false} SplitAfterToken(t: string, c: char, s: string, delims: set<char>)
    requires forall k :: 0 <= k < |t| ==> t[k] !in delims
    requires c in delims
    ensures Split(t + [c] + s, delims) == [t] + Split(s, delims)
    decreases |t|
  {
    var w := t + [c] + s;
    if |t| == 0 {
      assert w == [c] + s;
      assert w[1..] == s;
    } else {
      assert w[1..] == t[1..] + [c] + s;
      SplitAfterToken(t[1..], c, s, delims);
      assert [t[0]] + t[1..] == t;
    }
  }

  /** Every character `trim` keeps comes from the input. */
  lemma TrimChars(s: string, k: nat)
    requires k < |Trim(s)|
    ensures Trim(s)[k] == s[|s| - |TrimStart(s)| + k]
  {
  }
}
