/** The `java.lang.String` operations the dependency-tree decoder relies on, with Java's
    semantics: indices count characters, which are Java's UTF-16
    indices for text without supplementary characters, "not found" is -1,
    `trim` strips every character up to U+0020, and `split` drops trailing empty fields. */
module JavaString {

  import opened Results

  /** `t` occurs in `s` starting at index `k`. */
  predicate MatchAt(s: string, t: string, k: int) {
    0 <= k && k + |t| <= |s| && s[k..k + |t|] == t
  }

  /** `s.indexOf(t, from)`: the first index `k >= from` where `t` occurs, or -1. */
  function IndexOfFrom(s: string, t: string, from: nat): (r: int)
    decreases |s| - from
    ensures r == -1 || (from <= r && MatchAt(s, t, r))
  {
    if from + |t| > |s| then -1
    else if s[from..from + |t|] == t then from
    else IndexOfFrom(s, t, from + 1)
  }

  /** No occurrence from `from` on comes before the one `indexOf` finds. */
  lemma {:induction false} IndexOfFromFirst(s: string, t: string, from: nat)
    ensures forall k :: from <= k && (IndexOfFrom(s, t, from) == -1 || k < IndexOfFrom(s, t, from)) ==> !MatchAt(s, t, k)
    decreases |s| - from
  {
    if from + |t| <= |s| && s[from..from + |t|] != t {
      IndexOfFromFirst(s, t, from + 1);
    }
  }

  /** `s.indexOf(t)`. */
  function IndexOf(s: string, t: string): (r: int)
    ensures r == -1 || MatchAt(s, t, r)
  {
    IndexOfFrom(s, t, 0)
  }

  /** No occurrence comes before the one `indexOf` finds. */
  lemma IndexOfFirst(s: string, t: string)
    ensures forall k :: 0 <= k && (IndexOf(s, t) == -1 || k < IndexOf(s, t)) ==> !MatchAt(s, t, k)
  {
    IndexOfFromFirst(s, t, 0);
  }

  /** `s.contains(t)`. */
  predicate Contains(s: string, t: string) {
    IndexOf(s, t) >= 0
  }

  /** `contains` holds exactly when `t` occurs somewhere in `s`. */
  lemma ContainsMatch(s: string, t: string)
    ensures Contains(s, t) <==> exists k :: MatchAt(s, t, k)
  {
    IndexOfFirst(s, t);
  }

  /** `s.startsWith(p)`. */
  predicate StartsWith(s: string, p: string) {
    |p| <= |s| && s[..|p|] == p
  }

  /** `s.indexOf(c, from)` for a single character. */
  function IndexOfCharFrom(s: string, c: char, from: nat): (r: int)
    decreases |s| - from
    ensures r == -1 || from <= r < |s|
  {
    if from >= |s| then -1 else if s[from] == c then from else IndexOfCharFrom(s, c, from + 1)
  }

  lemma {:induction false} IndexOfCharFromFacts(s: string, c: char, from: nat)
    requires from <= |s|
    ensures IndexOfCharFrom(s, c, from) == -1 <==> c !in s[from..]
    ensures IndexOfCharFrom(s, c, from) >= 0 ==>
      s[IndexOfCharFrom(s, c, from)] == c && c !in s[from..IndexOfCharFrom(s, c, from)]
    decreases |s| - from
  {
    if from < |s| && s[from] != c {
      IndexOfCharFromFacts(s, c, from + 1);
      assert s[from..] == [s[from]] + s[from + 1..];
      var r := IndexOfCharFrom(s, c, from + 1);
      if r >= 0 {
        assert s[from..r] == [s[from]] + s[from + 1..r];
      }
    }
  }

  /** `s.indexOf(c)` for a single character. */
  function IndexOfChar(s: string, c: char): (r: int)
    ensures -1 <= r < |s|
  {
    IndexOfCharFrom(s, c, 0)
  }

  /** `indexOf(c)` is -1 exactly when `c` is absent, and otherwise its first position. */
  lemma IndexOfCharFacts(s: string, c: char)
    ensures IndexOfChar(s, c) == -1 <==> c !in s
    ensures IndexOfChar(s, c) >= 0 ==> s[IndexOfChar(s, c)] == c && c !in s[..IndexOfChar(s, c)]
  {
    IndexOfCharFromFacts(s, c, 0);
    assert s[0..] == s;
  }

  /** `s.lastIndexOf(c)` for a single character. */
  function LastIndexOfChar(s: string, c: char): (r: int)
    ensures -1 <= r < |s|
    ensures r == -1 <==> c !in s
    ensures r >= 0 ==> s[r] == c && c !in s[r + 1..]
  {
    LastIndexOfCharBeforeFacts(s, c, |s|);
    assert s[..|s|] == s;
    LastIndexOfCharBefore(s, c, |s|)
  }

  /** The last index below `end` holding `c`, or -1. */
  function LastIndexOfCharBefore(s: string, c: char, end: nat): (r: int)
    requires end <= |s|
    ensures -1 <= r < end
  {
    if end == 0 then -1 else if s[end - 1] == c then end - 1 else LastIndexOfCharBefore(s, c, end - 1)
  }

  lemma {:induction false} LastIndexOfCharBeforeFacts(s: string, c: char, end: nat)
    requires end <= |s|
    ensures LastIndexOfCharBefore(s, c, end) == -1 <==> c !in s[..end]
    ensures LastIndexOfCharBefore(s, c, end) >= 0 ==>
      s[LastIndexOfCharBefore(s, c, end)] == c && c !in s[LastIndexOfCharBefore(s, c, end) + 1..end]
  {
    if end > 0 {
      assert s[..end] == s[..end - 1] + [s[end - 1]];
      if s[end - 1] != c {
        LastIndexOfCharBeforeFacts(s, c, end - 1);
        var r := LastIndexOfCharBefore(s, c, end - 1);
        if r >= 0 {
          assert s[r + 1..end] == s[r + 1..end - 1] + [s[end - 1]];
        }
      }
    }
  }

  /** Characters `String.trim` removes: every code point up to and including U+0020. */
  predicate IsTrimmed(c: char) {
    c <= ' '
  }

  /** The text of `s` after its leading run of trimmable characters. */
  function TrimStart(s: string): (r: string)
    ensures |r| <= |s|
  {
    if s != [] && IsTrimmed(s[0]) then TrimStart(s[1..]) else s
  }

  /** `TrimStart` drops a run of trimmable characters and stops at the first other one. */
  lemma {:induction false} TrimStartFacts(s: string)
    ensures TrimStart(s) == s[|s| - |TrimStart(s)|..]
    ensures forall i :: 0 <= i < |s| - |TrimStart(s)| ==> IsTrimmed(s[i])
    ensures TrimStart(s) == [] || !IsTrimmed(TrimStart(s)[0])
  {
    if s != [] && IsTrimmed(s[0]) {
      TrimStartFacts(s[1..]);
    }
  }

  /** The text of `s` before its trailing run of trimmable characters. */
  function TrimEnd(s: string): (r: string)
    ensures |r| <= |s|
  {
    if s != [] && IsTrimmed(s[|s| - 1]) then TrimEnd(s[..|s| - 1]) else s
  }

  /** `TrimEnd` drops a run of trimmable characters and stops at the last other one. */
  lemma {:induction false} TrimEndFacts(s: string)
    ensures TrimEnd(s) == s[..|TrimEnd(s)|]
    ensures forall i :: |TrimEnd(s)| <= i < |s| ==> IsTrimmed(s[i])
    ensures TrimEnd(s) == [] || !IsTrimmed(TrimEnd(s)[|TrimEnd(s)| - 1])
  {
    if s != [] && IsTrimmed(s[|s| - 1]) {
      TrimEndFacts(s[..|s| - 1]);
    }
  }

  /** `s.trim()`. */
  function Trim(s: string): (r: string)
    ensures |r| <= |s|
  {
    TrimEnd(TrimStart(s))
  }

  /** What `trim` leaves: neither end trimmable, and nothing only when every character is. */
  lemma TrimFacts(s: string)
    ensures Trim(s) == [] || (!IsTrimmed(Trim(s)[0]) && !IsTrimmed(Trim(s)[|Trim(s)| - 1]))
    ensures (forall i :: 0 <= i < |s| ==> IsTrimmed(s[i])) <==> Trim(s) == []
  {
    var t := TrimStart(s);
    TrimStartFacts(s);
    TrimEndFacts(t);
    assert forall i :: |s| - |t| <= i < |s| ==> s[i] == t[i - (|s| - |t|)];
  }

  /** Trimming leaves a string alone exactly when it neither starts nor ends with a
      trimmable character. */
  lemma TrimFixed(s: string)
    ensures Trim(s) == s <==> (s == [] || (!IsTrimmed(s[0]) && !IsTrimmed(s[|s| - 1])))
  {
    TrimFacts(s);
    TrimStartFacts(s);
    TrimEndFacts(TrimStart(s));
  }

  /** `trim` is idempotent. */
  lemma TrimIdempotent(s: string)
    ensures Trim(Trim(s)) == Trim(s)
  {
    TrimFacts(s);
    TrimFixed(Trim(s));
  }

  /** The number of occurrences of `c` in `s`. */
  function CountChar(s: string, c: char): (n: nat)
    ensures n <= |s|
  {
    if s == [] then 0 else (if s[0] == c then 1 else 0) + CountChar(s[1..], c)
  }

  /** No occurrence counts zero. */
  lemma {:induction false} CountCharZero(s: string, c: char)
    ensures CountChar(s, c) == 0 <==> c !in s
  {
    if s != [] {
      CountCharZero(s[1..], c);
      assert s == [s[0]] + s[1..];
    }
  }

  lemma CountCharAppend(s: string, t: string, c: char)
    ensures CountChar(s + t, c) == CountChar(s, c) + CountChar(t, c)
  {
    if s != [] {
      assert (s + t)[1..] == s[1..] + t;
      assert (s + t)[0] == s[0];
      CountCharAppend(s[1..], t, c);
    } else {
      assert s + t == t;
    }
  }

  /** The fields of `s` between occurrences of `c`, all of them, empty ones included. */
  function Fields(s: string, c: char): (r: seq<string>)
    decreases |s|
    ensures |r| >= 1
    ensures forall i :: 0 <= i < |r| ==> c !in r[i]
    ensures c !in s ==> r == [s]
  {
    IndexOfCharFacts(s, c);
    var i := IndexOfChar(s, c);
    if i < 0 then [s] else [s[..i]] + Fields(s[i + 1..], c)
  }

  /** The fields `ps` written out with `c` between neighbours. */
  function Join(ps: seq<string>, c: char): string
    requires |ps| >= 1
  {
    if |ps| == 1 then ps[0] else ps[0] + [c] + Join(ps[1..], c)
  }

  /** Splitting undoes joining: fields free of the separator come back unchanged. */
  lemma {:induction false} FieldsOfJoin(ps: seq<string>, c: char)
    requires |ps| >= 1
    requires forall i :: 0 <= i < |ps| ==> c !in ps[i]
    ensures Fields(Join(ps, c), c) == ps
  {
    if |ps| > 1 {
      var s := Join(ps, c);
      var rest := Join(ps[1..], c);
      assert s == ps[0] + [c] + rest;
      FirstSeparator(ps[0], c, rest);
      assert s[..|ps[0]|] == ps[0];
      assert s[|ps[0]| + 1..] == rest;
      FieldsOfJoin(ps[1..], c);
      assert ps == [ps[0]] + ps[1..];
    }
  }

  /** The first separator in `p + [c] + rest` is the one after `p`, when `p` has none. */
  lemma FirstSeparator(p: string, c: char, rest: string)
    requires c !in p
    ensures IndexOfChar(p + [c] + rest, c) == |p|
  {
    var s := p + [c] + rest;
    IndexOfCharFacts(s, c);
    assert s[..|p|] == p;
    assert s[|p|] == c;
  }

  lemma JoinCons(p: string, ps: seq<string>, c: char)
    requires |ps| >= 1
    ensures Join([p] + ps, c) == p + [c] + Join(ps, c)
  {
    assert ([p] + ps)[1..] == ps;
  }

  /** Joining undoes splitting. */
  lemma {:induction false} JoinOfFields(s: string, c: char)
    decreases |s|
    ensures Join(Fields(s, c), c) == s
  {
    var i := IndexOfChar(s, c);
    if i >= 0 {
      FieldsCut(s, c);
      JoinOfFields(s[i + 1..], c);
      JoinCons(s[..i], Fields(s[i + 1..], c), c);
    }
  }

  /** At the first separator, the fields are the text before it followed by the fields
      after it. */
  lemma FieldsCut(s: string, c: char)
    requires IndexOfChar(s, c) >= 0
    ensures var i := IndexOfChar(s, c);
      Fields(s, c) == [s[..i]] + Fields(s[i + 1..], c) && s == s[..i] + [c] + s[i + 1..]
  {
    var i := IndexOfChar(s, c);
    IndexOfCharFromFacts(s, c, 0);
    CutAt(s, i);
  }

  lemma CutAt(s: string, i: nat)
    requires i < |s|
    ensures s == s[..i] + [s[i]] + s[i + 1..]
  {
  }

  /** `ps` with its trailing empty strings removed. */
  function DropTrailingEmpty(ps: seq<string>): (r: seq<string>)
    ensures |r| <= |ps| && r == ps[..|r|]
    ensures forall i :: |r| <= i < |ps| ==> ps[i] == []
    ensures r == [] || r[|r| - 1] != []
  {
    if ps != [] && ps[|ps| - 1] == [] then DropTrailingEmpty(ps[..|ps| - 1]) else ps
  }

  /** `s.split(String.valueOf(c))` for a character that is not a regular-expression
      metacharacter: with no occurrence the result is `[s]` (even for the empty string),
      otherwise the fields with trailing empty ones removed. */
  function JavaSplit(s: string, c: char): (r: seq<string>)
    ensures forall i :: 0 <= i < |r| ==> c !in r[i]
    ensures c !in s ==> r == [s]
  {
    if c !in s then [s] else DropTrailingEmpty(Fields(s, c))
  }

  /** Splitting recovers fields that are non-empty and free of the separator. */
  lemma SplitOfJoin(ps: seq<string>, c: char)
    requires |ps| >= 1
    requires forall i :: 0 <= i < |ps| ==> c !in ps[i] && ps[i] != []
    ensures JavaSplit(Join(ps, c), c) == ps
  {
    FieldsOfJoin(ps, c);
    if |ps| > 1 {
      assert Join(ps, c) == ps[0] + [c] + Join(ps[1..], c);
      assert Join(ps, c)[|ps[0]|] == c;
    }
  }

  /** ASCII lower-casing of one character. */
  function LowerChar(c: char): char {
    if 'A' <= c <= 'Z' then (c as int + 32) as char else c
  }

  /** `s.toLowerCase()` on ASCII letters. */
  function ToLower(s: string): (r: string)
    ensures |r| == |s|
    ensures forall i :: 0 <= i < |s| ==> r[i] == LowerChar(s[i])
  {
    if s == [] then [] else [LowerChar(s[0])] + ToLower(s[1..])
  }

  /** Lower-casing commutes with taking a substring. */
  lemma ToLowerSlice(s: string, i: int, j: int)
    requires 0 <= i <= j <= |s|
    ensures ToLower(s[i..j]) == ToLower(s)[i..j]
  {
  }

  /** Lower-casing keeps an occurrence where it is. */
  lemma ToLowerMatch(s: string, t: string, k: int)
    requires MatchAt(s, t, k)
    ensures MatchAt(ToLower(s), ToLower(t), k)
  {
    ToLowerSlice(s, k, k + |t|);
  }

  /** A substring of a substring is a substring. */
  lemma ContainsTransitive(s: string, t: string, u: string)
    requires Contains(s, t) && Contains(t, u)
    ensures Contains(s, u)
  {
    ContainsMatch(s, t);
    ContainsMatch(t, u);
    ContainsMatch(s, u);
    var k :| MatchAt(s, t, k);
    var m :| MatchAt(t, u, m);
    forall i | 0 <= i < |u| ensures s[k + m..k + m + |u|][i] == u[i] {
      assert u[i] == t[m + i] == s[k + m + i];
    }
    assert MatchAt(s, u, k + m);
  }

  function DigitChar(d: int): char
    requires 0 <= d < 10
  {
    "0123456789"[d]
  }

  /** `Long.toString(n)` for a non-negative `n`. */
  function NatToDecimal(n: nat): (r: string)
    ensures |r| >= 1
    ensures forall i :: 0 <= i < |r| ==> '0' <= r[i] <= '9'
    ensures r[0] == '0' ==> n == 0
  {
    if n < 10 then [DigitChar(n)] else NatToDecimal(n / 10) + [DigitChar(n % 10)]
  }

  /** `Long.toString(n)`: a minus sign before the digits of a negative number. */
  function IntToDecimal(n: int): (r: string)
    ensures |r| >= 1
    ensures (r[0] == '-') <==> n < 0
  {
    if n < 0 then "-" + NatToDecimal(-n) else NatToDecimal(n)
  }

  /** The value of a string of decimal digits. */
  function DecimalValue(s: string): int
    requires forall i :: 0 <= i < |s| ==> '0' <= s[i] <= '9'
  {
    if s == [] then 0 else DecimalValue(s[..|s| - 1]) * 10 + (s[|s| - 1] as int - '0' as int)
  }

  /** Reading back the decimal form gives the number. */
  lemma {:induction false} DecimalRoundTrip(n: nat)
    ensures DecimalValue(NatToDecimal(n)) == n
  {
    if n >= 10 {
      DecimalRoundTrip(n / 10);
      var s := NatToDecimal(n);
      assert s[..|s| - 1] == NatToDecimal(n / 10);
    }
  }

  /** `s` holds `p` at `k` followed by at least one character other than `';'`: where the
      regular expression `p([^;]+)` can match. */
  predicate GroupAt(s: string, p: string, k: int) {
    MatchAt(s, p, k) && k + |p| < |s| && s[k + |p|] != ';'
  }

  /** The leftmost index from `from` on where `p([^;]+)` matches, or -1. */
  function GroupStartFrom(s: string, p: string, from: nat): (r: int)
    decreases |s| - from
    ensures r == -1 || (from <= r && GroupAt(s, p, r))
    ensures forall k :: from <= k && (r == -1 || k < r) ==> !GroupAt(s, p, k)
  {
    if from + |p| >= |s| then -1
    else if s[from..from + |p|] == p && s[from + |p|] != ';' then from
    else GroupStartFrom(s, p, from + 1)
  }

  /** The longest prefix of `s` free of `';'`. */
  function UpToSemicolon(s: string): (r: string)
    ensures ';' !in r
    ensures r == s || (|r| < |s| && s == r + s[|r|..] && s[|r|] == ';')
  {
    IndexOfCharFacts(s, ';');
    var i := IndexOfChar(s, ';');
    if i < 0 then s else s[..i]
  }

  /** `Matcher.find()` for the pattern `p([^;]+)` followed by `group(1)`: the maximal run
      of characters other than `';'` after the leftmost match of `p` that is followed by
      one, or `None` when the pattern does not match. */
  function FindGroup(s: string, p: string): (r: Option<string>)
    ensures r.Some? ==> r.value != [] && ';' !in r.value
    ensures r.None? <==> forall k :: !GroupAt(s, p, k)
  {
    var k := GroupStartFrom(s, p, 0);
    if k < 0 then None else Some(UpToSemicolon(s[k + |p|..]))
  }
}
