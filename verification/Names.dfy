/** Machine names, workspace directory names and vsock CIDs (machine.rs).

    Rust measures names in bytes; every name that is accepted here is ASCII, where bytes
    and characters agree.
 */
module Names {
  import opened Outcomes
  import opened Bytes

  const MAX_NAME: nat := 63
  const MAX_SLUG: nat := 50

  predicate LowerAlnum(c: char) {
    'a' <= c <= 'z' || '0' <= c <= '9'
  }

  predicate NameChar(c: char) {
    LowerAlnum(c) || c == '-'
  }

  /** machine.rs `validate_name`. */
  predicate ValidName(s: string) {
    && 0 < |s| <= MAX_NAME
    && LowerAlnum(s[0]) && LowerAlnum(s[|s| - 1])
    && forall i :: 0 <= i < |s| ==> NameChar(s[i])
  }

  /** What the suffixing loop needs of its base; both validated names and slugs have it. */
  predicate ValidBase(s: string) {
    && s != [] && LowerAlnum(s[0])
    && forall i :: 0 <= i < |s| ==> NameChar(s[i])
  }

  // ---------------------------------------------------------------- string helpers

  /** trim_end_matches for one character. */
  function TrimEnd(s: string, c: char): (r: string)
    ensures r <= s
    ensures r != [] ==> r[|r| - 1] != c
    ensures forall i :: |r| <= i < |s| ==> s[i] == c
  {
    if s != [] && s[|s| - 1] == c then TrimEnd(s[..|s| - 1], c) else s
  }

  function Decimal(n: nat): (d: string)
    ensures d != [] && forall i :: 0 <= i < |d| ==> '0' <= d[i] <= '9'
  {
    var digit := ('0' as int + n % 10) as char;
    if n < 10 then [digit] else Decimal(n / 10) + [digit]
  }

  function FromDecimal(d: string): nat {
    if d == [] || !('0' <= d[|d| - 1] <= '9') then 0
    else FromDecimal(d[..|d| - 1]) * 10 + (d[|d| - 1] as int - '0' as int)
  }

  lemma {:induction false} DecimalRoundTrip(n: nat)
    ensures FromDecimal(Decimal(n)) == n
  {
    if n < 10 {
      assert Decimal(n)[..0] == [];
    } else {
      DecimalRoundTrip(n / 10);
      var d := Decimal(n);
      assert d[..|d| - 1] == Decimal(n / 10);
    }
  }

  /** The most significant digit comes first. */
  lemma DecimalOrder(n: nat, digit: nat)
    requires n > 0 && digit < 10
    ensures Decimal(10 * n + digit) == Decimal(n) + Decimal(digit)
  {
  }

  /** How long a decimal number gets. */
  function Power10(k: nat): (p: nat)
    ensures p > 0
  {
    if k == 0 then 1 else 10 * Power10(k - 1)
  }

  lemma {:induction false} DecimalLength(n: nat, k: nat)
    requires 0 < k && n < Power10(k)
    ensures |Decimal(n)| <= k
  {
    if n >= 10 {
      DecimalLength(n / 10, k - 1);
    }
  }

  /** The part behind the last hyphen. */
  function LastField(s: string): string {
    if s == [] || s[|s| - 1] == '-' then []
    else LastField(s[..|s| - 1]) + [s[|s| - 1]]
  }

  lemma {:induction false} LastFieldOfSuffix(base: string, d: string)
    requires forall i :: 0 <= i < |d| ==> d[i] != '-'
    ensures LastField(base + "-" + d) == d
  {
    var s := base + "-" + d;
    if d == [] {
    } else {
      var d' := d[..|d| - 1];
      LastFieldOfSuffix(base, d');
      assert s[..|s| - 1] == base + "-" + d';
    }
  }

  // ---------------------------------------------------------------- clone names

  /** The base cut so that it fits 63 bytes together with the suffix. */
  function CutBase(base: string, suffix: nat): string {
    var used := |Decimal(suffix)| + 1;
    var room := if MAX_NAME < used then 0 else MAX_NAME - used;
    TrimEnd(base[..if |base| < room then |base| else room], '-')
  }

  /** The name tried for one suffix. */
  function Candidate(base: string, suffix: nat): string {
    CutBase(base, suffix) + "-" + Decimal(suffix)
  }

  /** Truncation never makes two suffixes collide. */
  lemma CandidateInjective(base: string, s: nat, t: nat)
    requires Candidate(base, s) == Candidate(base, t)
    ensures s == t
  {
    LastFieldOfSuffix(CutBase(base, s), Decimal(s));
    LastFieldOfSuffix(CutBase(base, t), Decimal(t));
    DecimalRoundTrip(s);
    DecimalRoundTrip(t);
  }

  /** Every candidate with a 32-bit suffix is a valid machine name. */
  lemma CandidateValid(base: string, suffix: nat)
    requires ValidBase(base) && suffix < U32
    ensures ValidName(Candidate(base, suffix))
  {
    assert Power10(10) == 10_000_000_000 by {
      assert Power10(5) == 100_000;
    }
    DecimalLength(suffix, 10);
    var digits, trimmed, c := Decimal(suffix), CutBase(base, suffix), Candidate(base, suffix);
    var room := MAX_NAME - (|digits| + 1);
    var cut := base[..if |base| < room then |base| else room];
    assert cut[0] == base[0];
    assert trimmed != [] && trimmed[0] == base[0];
    forall i | 0 <= i < |c|
      ensures NameChar(c[i])
    {
      if i < |trimmed| {
        assert c[i] == trimmed[i] == cut[i] == base[i];
      } else if i > |trimmed| {
        assert c[i] == digits[i - |trimmed| - 1];
      }
    }
    assert c[|c| - 1] == digits[|digits| - 1];
  }

  /** The candidate for every suffix of one base. */
  function Candidates(base: string): (cand: nat -> string)
    ensures forall s :: cand(s) == Candidate(base, s)
  {
    (s: nat) => Candidate(base, s)
  }

  ghost predicate Injective(cand: nat -> string) {
    forall s, t :: cand(s) == cand(t) ==> s == t
  }

  lemma CandidatesInjective(base: string)
    ensures Injective(Candidates(base))
  {
    forall s, t | Candidates(base)(s) == Candidates(base)(t)
      ensures s == t
    {
      CandidateInjective(base, s, t);
    }
  }

  /** `names` are the candidates of the least free suffixes: `suffixes` increases, starts
      at 1 or later, and every suffix it jumps over is taken. */
  ghost predicate LeastFree(cand: nat -> string, taken: set<string>, names: seq<string>, suffixes: seq<nat>) {
    && |names| == |suffixes|
    && (forall i :: 0 <= i < |names| ==> suffixes[i] >= 1 && names[i] == cand(suffixes[i]) && names[i] !in taken)
    && (forall i, j :: 0 <= i < j < |suffixes| ==> suffixes[i] < suffixes[j])
    && (forall i, s: nat :: 0 <= i < |suffixes| && 1 <= s < suffixes[i] && s !in suffixes ==> cand(s) in taken)
  }

  /** `LeastFree` leaves no choice. */
  lemma LeastFreeUnique(
    cand: nat -> string, taken: set<string>, a: seq<string>, sa: seq<nat>, b: seq<string>, sb: seq<nat>)
    requires LeastFree(cand, taken, a, sa) && LeastFree(cand, taken, b, sb) && |a| == |b|
    ensures a == b
  {
    SuffixesAgreeBelow(cand, taken, a, sa, b, sb, |a|);
    assert forall i :: 0 <= i < |a| ==> a[i] == cand(sa[i]) == b[i];
  }

  lemma {:induction false} SuffixesAgreeBelow(
    cand: nat -> string, taken: set<string>, a: seq<string>, sa: seq<nat>, b: seq<string>, sb: seq<nat>, k: nat)
    requires LeastFree(cand, taken, a, sa) && LeastFree(cand, taken, b, sb) && k <= |a| == |b|
    ensures forall i :: 0 <= i < k ==> sa[i] == sb[i]
  {
    if k > 0 {
      SuffixesAgreeBelow(cand, taken, a, sa, b, sb, k - 1);
      NotSkipped(cand, taken, a, sa, b, sb, k - 1);
      NotSkipped(cand, taken, b, sb, a, sa, k - 1);
    }
  }

  lemma NotSkipped(
    cand: nat -> string, taken: set<string>, a: seq<string>, sa: seq<nat>, b: seq<string>, sb: seq<nat>, n: nat)
    requires LeastFree(cand, taken, a, sa) && LeastFree(cand, taken, b, sb) && n < |a| == |b|
    requires forall i :: 0 <= i < n ==> sa[i] == sb[i]
    ensures sb[n] <= sa[n]
  {
    assert a[n] == cand(sa[n]) && a[n] !in taken;
  }

  /** All suffixes below `next` have been tried, and `names` are those that were free. */
  ghost predicate ProbedBelow(
    cand: nat -> string, taken: set<string>, names: seq<string>, suffixes: seq<nat>, next: nat)
  {
    && LeastFree(cand, taken, names, suffixes)
    && (forall i :: 0 <= i < |suffixes| ==> suffixes[i] < next)
    && (forall s: nat :: 1 <= s < next && s !in suffixes ==> cand(s) in taken)
  }

  lemma ProbeFree(cand: nat -> string, taken: set<string>, names: seq<string>, suffixes: seq<nat>, next: nat)
    requires ProbedBelow(cand, taken, names, suffixes, next) && 1 <= next && cand(next) !in taken
    ensures ProbedBelow(cand, taken, names + [cand(next)], suffixes + [next], next + 1)
  {
    var longer := suffixes + [next];
    assert next == longer[|suffixes|];
    assert forall x :: x in suffixes ==> x in longer;
  }

  lemma ProbeTaken(cand: nat -> string, taken: set<string>, names: seq<string>, suffixes: seq<nat>, next: nat)
    requires ProbedBelow(cand, taken, names, suffixes, next) && 1 <= next && cand(next) in taken
    ensures ProbedBelow(cand, taken, names, suffixes, next + 1)
  {
  }

  /** Names for different suffixes differ, so an allocation never repeats itself. */
  lemma LeastFreeDistinct(cand: nat -> string, taken: set<string>, names: seq<string>, suffixes: seq<nat>)
    requires Injective(cand) && LeastFree(cand, taken, names, suffixes)
    ensures forall i, j :: 0 <= i < j < |names| ==> names[i] != names[j]
  {
    forall i, j | 0 <= i < j < |names|
      ensures names[i] != names[j]
    {
      assert names[i] == cand(suffixes[i]) && names[j] == cand(suffixes[j]);
    }
  }

  lemma NotYetProbed(cand: nat -> string, names: seq<string>, suffixes: seq<nat>, next: nat)
    requires Injective(cand) && |names| == |suffixes|
    requires forall i :: 0 <= i < |names| ==> names[i] == cand(suffixes[i]) && suffixes[i] < next
    ensures cand(next) !in names
  {
    forall i | 0 <= i < |names|
      ensures names[i] != cand(next)
    {
      assert names[i] == cand(suffixes[i]);
    }
  }

  /** The candidates of the suffixes 1, 2, ..., next - 1. */
  ghost function Tried(cand: nat -> string, next: nat): set<string> {
    if next <= 1 then {} else Tried(cand, next - 1) + {cand(next - 1)}
  }

  lemma {:induction false} CountTried(cand: nat -> string, next: nat)
    requires Injective(cand) && 1 <= next
    ensures |Tried(cand, next)| == next - 1
    ensures forall c :: c in Tried(cand, next) ==> exists s: nat :: 1 <= s < next && c == cand(s)
  {
    if next > 1 {
      CountTried(cand, next - 1);
    }
  }

  lemma {:induction false} SetOfSeq(s: seq<string>)
    ensures |set x | x in s| <= |s|
  {
    if s != [] {
      var n := |s| - 1;
      SetOfSeq(s[..n]);
      assert (set x | x in s) == (set x | x in s[..n]) + {s[n]};
    }
  }

  /** Pigeonhole: each probe hit a taken name or produced a new one. */
  lemma ProbesBounded(cand: nat -> string, taken: set<string>, names: seq<string>, suffixes: seq<nat>, next: nat)
    requires Injective(cand) && ProbedBelow(cand, taken, names, suffixes, next) && 1 <= next
    ensures next - 1 <= |taken| + |names|
  {
    CountTried(cand, next);
    SetOfSeq(names);
    var found := set x | x in names;
    forall c | c in Tried(cand, next)
      ensures c in taken + found
    {
      var s: nat :| 1 <= s < next && c == cand(s);
      if s in suffixes {
        var i :| 0 <= i < |suffixes| && suffixes[i] == s;
        assert names[i] == c;
      }
    }
    CardinalityOfSubset(Tried(cand, next), taken + found);
  }

  /** The suffixing loop of `allocate_clone_names`. It makes at most |taken| + count
      probes, so it ends. */
  method FirstFree(cand: nat -> string, count: nat, taken: set<string>)
    returns (names: seq<string>, ghost suffixes: seq<nat>)
    requires Injective(cand)
    ensures |names| == count && LeastFree(cand, taken, names, suffixes)
    ensures forall i :: 0 <= i < |suffixes| ==> suffixes[i] <= |taken| + count
  {
    var occupied := taken;
    names, suffixes := [], [];
    var suffix := 1;
    while |names| < count
      invariant |names| <= count && 1 <= suffix
      invariant ProbedBelow(cand, taken, names, suffixes, suffix)
      invariant forall c :: c in occupied <==> c in taken || c in names
      invariant suffix <= |taken| + count + 1
      decreases |taken| + count + 1 - suffix
    {
      ProbesBounded(cand, taken, names, suffixes, suffix);
      NotYetProbed(cand, names, suffixes, suffix);
      var candidate := cand(suffix);
      if candidate !in occupied {
        ProbeFree(cand, taken, names, suffixes, suffix);
        occupied := occupied + {candidate};
        names, suffixes := names + [candidate], suffixes + [suffix];
      } else {
        ProbeTaken(cand, taken, names, suffixes, suffix);
      }
      suffix := suffix + 1;
    }
  }

  /** The loop for one base: no candidate is ever rejected by `validate_name`. */
  method SuffixedNames(base: string, count: nat, taken: set<string>)
    returns (names: seq<string>, ghost suffixes: seq<nat>)
    requires ValidBase(base) && |taken| + count < U32
    ensures |names| == count && LeastFree(Candidates(base), taken, names, suffixes)
    ensures forall i :: 0 <= i < |names| ==> ValidName(names[i]) && suffixes[i] <= |taken| + count
    ensures forall i, j :: 0 <= i < j < |names| ==> names[i] != names[j]
  {
    CandidatesInjective(base);
    names, suffixes := FirstFree(Candidates(base), count, taken);
    LeastFreeDistinct(Candidates(base), taken, names, suffixes);
    forall i | 0 <= i < |names|
      ensures ValidName(names[i])
    {
      CandidateValid(base, suffixes[i]);
    }
  }

  lemma {:induction false} CardinalityOfSubset<T>(a: set<T>, b: set<T>)
    requires a <= b
    ensures |a| <= |b|
  {
    if a != {} {
      var x :| x in a;
      CardinalityOfSubset(a - {x}, b - {x});
    }
  }

  // ---------------------------------------------------------------- slugs

  /** char::to_lowercase, which may yield several characters but never ASCII upper case. */
  ghost predicate LowerCases(lower: char -> string) {
    forall c, d :: d in lower(c) ==> !('A' <= d <= 'Z')
  }

  function Lowered(s: string, lower: char -> string): string {
    if s == [] then [] else Lowered(s[..|s| - 1], lower) + lower(s[|s| - 1])
  }

  predicate AsciiAlnum(c: char) {
    LowerAlnum(c) || 'A' <= c <= 'Z'
  }

  /** The maximal runs of ASCII letters and digits. */
  function Words(s: string): (w: seq<string>)
    ensures forall i :: 0 <= i < |w| ==> w[i] != []
    ensures s != [] && AsciiAlnum(s[|s| - 1]) ==> w != []
  {
    if s == [] then []
    else
      var n := |s| - 1;
      var w := Words(s[..n]);
      if !AsciiAlnum(s[n]) then w
      else if n > 0 && AsciiAlnum(s[n - 1]) then w[..|w| - 1] + [w[|w| - 1] + [s[n]]]
      else w + [[s[n]]]
  }

  function Hyphenated(w: seq<string>): string {
    if w == [] then []
    else if |w| == 1 then w[0]
    else Hyphenated(w[..|w| - 1]) + "-" + w[|w| - 1]
  }

  function Take(s: string, n: nat): string {
    if |s| < n then s else s[..n]
  }

  /** machine.rs `slug`: the words of the text joined by hyphens, at most 50 bytes. */
  function Slug(value: string, lower: char -> string): string {
    TrimEnd(Take(Hyphenated(Words(Lowered(value, lower))), MAX_SLUG), '-')
  }

  lemma HyphenatedGrows(w: seq<string>, c: char)
    requires w != []
    ensures Hyphenated(w[..|w| - 1] + [w[|w| - 1] + [c]]) == Hyphenated(w) + [c]
  {
    var v := w[..|w| - 1] + [w[|w| - 1] + [c]];
    assert v[..|v| - 1] == w[..|w| - 1];
  }

  lemma HyphenatedAppends(w: seq<string>, c: char)
    ensures Hyphenated(w + [[c]]) == if w == [] then [c] else Hyphenated(w) + "-" + [c]
  {
    assert (w + [[c]])[..|w|] == w;
  }

  lemma {:induction false} HyphenatedEmpty(w: seq<string>)
    requires forall i :: 0 <= i < |w| ==> w[i] != []
    ensures Hyphenated(w) == [] <==> w == []
  {
  }

  /** One pass over a character list with a pending separator, as the source does it. */
  method ComputeSlug(value: string, lower: char -> string) returns (r: string)
    ensures r == Slug(value, lower)
  {
    var text := Lowered(value, lower);
    var output := "";
    var separator := false;
    for k := 0 to |text|
      invariant output == Hyphenated(Words(text[..k]))
      invariant separator <==> k > 0 && !AsciiAlnum(text[k - 1])
    {
      var c := text[k];
      ghost var before, after := text[..k], text[..k + 1];
      assert after[..k] == before && after[k] == c;
      HyphenatedEmpty(Words(before));
      if AsciiAlnum(c) {
        if k > 0 && AsciiAlnum(text[k - 1]) {
          HyphenatedGrows(Words(before), c);
        } else {
          HyphenatedAppends(Words(before), c);
        }
        if separator && output != [] {
          output := output + "-";
        }
        separator := false;
        output := output + [c];
        if k == 0 {
          assert Words(before) == [];
        }
      } else {
        separator := true;
      }
    }
    assert text[..|text|] == text;
    r := TrimEnd(Take(output, MAX_SLUG), '-');
  }

  lemma {:induction false} LoweredClean(s: string, lower: char -> string)
    requires LowerCases(lower)
    ensures forall i :: 0 <= i < |Lowered(s, lower)| ==> !('A' <= Lowered(s, lower)[i] <= 'Z')
  {
    if s != [] {
      LoweredClean(s[..|s| - 1], lower);
      var c := s[|s| - 1];
      forall i | 0 <= i < |Lowered(s, lower)|
        ensures !('A' <= Lowered(s, lower)[i] <= 'Z')
      {
        var rest := Lowered(s[..|s| - 1], lower);
        if i >= |rest| {
          assert Lowered(s, lower)[i] in lower(c);
        }
      }
    }
  }

  lemma {:induction false} WordsOfWord(w: string)
    requires w != [] && forall i :: 0 <= i < |w| ==> AsciiAlnum(w[i])
    ensures Words(w) == [w]
  {
    var n := |w| - 1;
    assert w[..n] + [w[n]] == w;
    if n > 0 {
      WordsOfWord(w[..n]);
    } else {
      assert w[..0] == [];
    }
  }

  /** The words after one more character; `joined` says that the last word goes on. */
  function Grown(words: seq<string>, joined: bool, c: char): seq<string> {
    if !AsciiAlnum(c) then words
    else if joined && words != [] then words[..|words| - 1] + [words[|words| - 1] + [c]]
    else words + [[c]]
  }

  lemma WordsGrow(s: string, c: char)
    ensures Words(s + [c]) == Grown(Words(s), s != [] && AsciiAlnum(s[|s| - 1]), c)
  {
    assert (s + [c])[..|s|] == s;
  }

  lemma GrownBehind(front: seq<string>, words: seq<string>, joined: bool, c: char)
    requires joined ==> words != []
    ensures Grown(front + words, joined, c) == front + Grown(words, joined, c)
  {
    if joined {
      assert (front + words)[..|front + words| - 1] == front + words[..|words| - 1];
    }
  }

  /** Together with `WordsOfWord` this says that words are the maximal runs of ASCII letters
      and digits, in order: anything else separates. */
  lemma {:induction false} WordsAreSeparated(a: string, sep: char, b: string)
    requires !AsciiAlnum(sep)
    ensures Words(a + [sep] + b) == Words(a) + Words(b)
  {
    if b == [] {
      WordsGrow(a, sep);
      assert a + [sep] + b == a + [sep] && Words(a) + [] == Words(a);
    } else {
      var n := |b| - 1;
      var front := b[..n];
      assert front + [b[n]] == b && a + [sep] + front + [b[n]] == a + [sep] + b;
      WordsAreSeparated(a, sep, front);
      WordsGrow(front, b[n]);
      WordsGrow(a + [sep] + front, b[n]);
      GrownBehind(Words(a), Words(front), front != [] && AsciiAlnum(front[|front| - 1]), b[n]);
    }
  }

  predicate AllLower(w: seq<string>) {
    forall i, j :: 0 <= i < |w| && 0 <= j < |w[i]| ==> LowerAlnum(w[i][j])
  }

  lemma {:induction false} WordsLower(s: string)
    requires forall i :: 0 <= i < |s| ==> !('A' <= s[i] <= 'Z')
    ensures AllLower(Words(s))
  {
    if s != [] {
      WordsLower(s[..|s| - 1]);
    }
  }

  lemma {:induction false} HyphenatedIsBase(w: seq<string>)
    requires AllLower(w) && forall i :: 0 <= i < |w| ==> w[i] != []
    ensures w != [] ==> ValidBase(Hyphenated(w))
  {
    if |w| > 1 {
      HyphenatedIsBase(w[..|w| - 1]);
    }
  }

  /** A slug that is not empty is a valid machine name of at most 50 bytes, and it is
      empty only for text without a single ASCII letter or digit. */
  lemma SlugIsValidName(value: string, lower: char -> string)
    requires LowerCases(lower)
    ensures Slug(value, lower) != [] ==>
      ValidName(Slug(value, lower)) && ValidBase(Slug(value, lower)) && |Slug(value, lower)| <= MAX_SLUG
    ensures Slug(value, lower) == [] <==> Words(Lowered(value, lower)) == []
  {
    var w := Words(Lowered(value, lower));
    LoweredClean(value, lower);
    WordsLower(Lowered(value, lower));
    HyphenatedIsBase(w);
    var cut := Take(Hyphenated(w), MAX_SLUG);
    var slug := Slug(value, lower);
    if w != [] {
      assert cut[0] == Hyphenated(w)[0];
      assert slug != [] && slug[0] == cut[0];
      assert NameChar(slug[|slug| - 1]) by {
        assert slug[|slug| - 1] == Hyphenated(w)[|slug| - 1];
      }
    }
  }

  /** The part of a path or URL behind the last '/' or ':'. */
  function Tail(s: string): string {
    if s == [] || s[|s| - 1] == '/' || s[|s| - 1] == ':' then []
    else Tail(s[..|s| - 1]) + [s[|s| - 1]]
  }

  function StripSuffix(s: string, suffix: string): string {
    if |suffix| <= |s| && s[|s| - |suffix|..] == suffix then s[..|s| - |suffix|] else s
  }

  /** machine.rs `repository_directory`. */
  function RepositoryDirectory(repository: string, lower: char -> string): Option<string> {
    var slug := Slug(StripSuffix(Tail(TrimEnd(repository, '/')), ".git"), lower);
    if slug == [] then None else Some(slug)
  }

  predicate ValidRepository(repository: string, lower: char -> string) {
    && repository != ""
    && '\n' !in repository && '\r' !in repository && '\0' !in repository
    && RepositoryDirectory(repository, lower).Some?
  }

  /** machine.rs `validate_repository`. */
  method RepositoryAccepted(repository: string, lower: char -> string) returns (ok: bool)
    ensures ok <==> ValidRepository(repository, lower)
  {
    if repository == "" || '\n' in repository || '\r' in repository || '\0' in repository {
      return false;
    }
    var slug := ComputeSlug(StripSuffix(Tail(TrimEnd(repository, '/')), ".git"), lower);
    return slug != [];
  }

  function CloneBase(requested: Option<string>, repository: string, lower: char -> string): string
    requires RepositoryDirectory(repository, lower).Some?
  {
    if requested.Some? then requested.value else RepositoryDirectory(repository, lower).value
  }

  /** What names `count` clones get: one explicit name, or the least free suffixes. */
  ghost predicate Allocated(
    requested: Option<string>, repository: string, count: nat, taken: set<string>, lower: char -> string,
    names: seq<string>)
  {
    && |names| == count
    && if count == 1 && requested.Some? then
         names == [requested.value] && requested.value !in taken
       else
         && RepositoryDirectory(repository, lower).Some?
         && exists suffixes ::
           && LeastFree(Candidates(CloneBase(requested, repository, lower)), taken, names, suffixes)
           && forall i :: 0 <= i < |suffixes| ==> suffixes[i] <= |taken| + count
  }

  function AsciiLower(c: char): char {
    if 'A' <= c <= 'Z' then (c as int + 32) as char else c
  }

  function AsciiLowered(w: string): string {
    seq(|w|, i requires 0 <= i < |w| => AsciiLower(w[i]))
  }

  predicate Word(w: string) {
    w != [] && forall i :: 0 <= i < |w| ==> AsciiAlnum(w[i])
  }

  /** What `lower` does with ASCII letters and digits. */
  predicate LowersAscii(lower: char -> string, w: string) {
    forall c :: c in w ==> lower(c) == [AsciiLower(c)]
  }

  lemma {:induction false} LoweredWord(w: string, lower: char -> string)
    requires LowersAscii(lower, w)
    ensures Lowered(w, lower) == AsciiLowered(w)
  {
    if w != [] {
      var n := |w| - 1;
      LoweredWord(w[..n], lower);
      assert w[n] in w && AsciiLowered(w) == AsciiLowered(w[..n]) + [AsciiLower(w[n])];
    }
  }

  /** The slug of one word is the word in lower case, cut at 50 characters. */
  lemma SlugOfWord(w: string, lower: char -> string)
    requires Word(w) && LowersAscii(lower, w)
    ensures Slug(w, lower) == Take(AsciiLowered(w), MAX_SLUG)
  {
    var low := AsciiLowered(w);
    LoweredWord(w, lower);
    WordsOfWord(low);
    var cut := Take(low, MAX_SLUG);
    assert cut[|cut| - 1] == low[|cut| - 1];
  }

  /** A further word is put behind a hyphen. */
  lemma WordAppended(front: string, sep: char, w: string)
    requires !AsciiAlnum(sep) && Word(w)
    ensures Hyphenated(Words(front + [sep] + w)) ==
      if Words(front) == [] then w else Hyphenated(Words(front)) + "-" + w
  {
    WordsAreSeparated(front, sep, w);
    WordsOfWord(w);
    assert (Words(front) + [w])[..|Words(front)|] == Words(front);
  }

  lemma {:induction false} TailIs(prefix: string, sep: char, w: string)
    requires sep in {'/', ':'} && '/' !in w && ':' !in w
    ensures Tail(prefix + [sep] + w) == w && Tail(w) == w
  {
    if w != [] {
      var n := |w| - 1;
      TailIs(prefix, sep, w[..n]);
      assert (prefix + [sep] + w)[..|prefix| + 1 + n] == prefix + [sep] + w[..n];
      assert w[..n] + [w[n]] == w;
    }
  }

  lemma SlashesTrimmed(s: string, slashes: string)
    requires s != [] && s[|s| - 1] != '/' && forall i :: 0 <= i < |slashes| ==> slashes[i] == '/'
    ensures TrimEnd(s + slashes, '/') == s
  {
    var all := s + slashes;
    assert all[|s| - 1] == s[|s| - 1];
    assert all[..|s|] == s;
  }

  lemma GitStripped(w: string)
    requires '.' !in w
    ensures StripSuffix(w, ".git") == w && StripSuffix(w + ".git", ".git") == w
  {
    assert |w| >= 4 ==> w[|w| - 4..][0] in w;
    assert (w + ".git")[|w|..] == ".git";
  }

  lemma LastWord(prefix: string, sep: char, w: string, git: bool, slashes: string)
    requires sep in {'/', ':'} && Word(w)
    requires forall i :: 0 <= i < |slashes| ==> slashes[i] == '/'
    ensures StripSuffix(Tail(TrimEnd(RepositoryText(prefix, sep, w, git, slashes), '/')), ".git") == w
  {
    var last := w + if git then ".git" else "";
    var s := prefix + [sep] + last;
    assert '/' !in last && ':' !in last && '.' !in w;
    assert s[|s| - 1] == last[|last| - 1];
    SlashesTrimmed(s, slashes);
    TailIs(prefix, sep, last);
    GitStripped(w);
    assert !git ==> last == w;
  }

  /** The word behind the last '/' or ':' names the directory, with or without ".git" and
      slashes behind it. */
  lemma DirectoryIsLastWord(
    prefix: string, sep: char, w: string, git: bool, slashes: string, lower: char -> string)
    requires sep in {'/', ':'} && Word(w) && LowersAscii(lower, w)
    requires forall i :: 0 <= i < |slashes| ==> slashes[i] == '/'
    ensures RepositoryDirectory(RepositoryText(prefix, sep, w, git, slashes), lower) ==
      Some(Take(AsciiLowered(w), MAX_SLUG))
  {
    LastWord(prefix, sep, w, git, slashes);
    SlugOfWord(w, lower);
  }

  function RepositoryText(prefix: string, sep: char, w: string, git: bool, slashes: string): string {
    prefix + [sep] + (w + if git then ".git" else "") + slashes
  }

  /** The cut base is the longest beginning of the base that leaves room for the suffix and
      does not end in a hyphen. */
  lemma CutBaseIsLongest(base: string, suffix: nat)
    requires suffix < U32
    ensures
      var cut, used := CutBase(base, suffix), |Decimal(suffix)| + 1;
      && cut <= base && |cut| + used <= MAX_NAME
      && Candidate(base, suffix) == cut + "-" + Decimal(suffix)
      && (cut != [] ==> cut[|cut| - 1] != '-')
      && forall i :: |cut| <= i < |base| && i + 1 + used <= MAX_NAME ==> base[i] == '-'
  {
    SuffixLength(suffix);
    var room := MAX_NAME - (|Decimal(suffix)| + 1);
    var front := base[..if |base| < room then |base| else room];
    forall i | |CutBase(base, suffix)| <= i < |front|
      ensures base[i] == '-'
    {
      assert front[i] == '-';
    }
  }

  lemma SuffixLength(suffix: nat)
    requires suffix < U32
    ensures |Decimal(suffix)| <= 10
  {
    assert Power10(10) == 10_000_000_000 by {
      assert Power10(5) == 100_000;
    }
    DecimalLength(suffix, 10);
  }

  /** A base of at most 50 characters, a slug for instance, is never cut. */
  lemma ShortBaseIsKept(base: string, suffix: nat)
    requires base != [] && |base| <= MAX_SLUG && base[|base| - 1] != '-' && suffix < U32
    ensures Candidate(base, suffix) == base + "-" + Decimal(suffix)
  {
    SuffixLength(suffix);
    CutBaseIsLongest(base, suffix);
  }

  /** The names of the clones of such a repository: the word, a hyphen and the least numbers
      for which the name is free. */
  lemma ClonesOfRepository(
    prefix: string, sep: char, w: string, git: bool, slashes: string, lower: char -> string,
    count: nat, taken: set<string>, names: seq<string>)
    requires sep in {'/', ':'} && Word(w) && LowersAscii(lower, w)
    requires forall i :: 0 <= i < |slashes| ==> slashes[i] == '/'
    requires Allocated(None, RepositoryText(prefix, sep, w, git, slashes), count, taken, lower, names)
    requires |taken| + count < U32
    ensures Numbered(Take(AsciiLowered(w), MAX_SLUG), taken, names)
  {
    DirectoryIsLastWord(prefix, sep, w, git, slashes, lower);
    var base := Take(AsciiLowered(w), MAX_SLUG);
    assert base[|base| - 1] == AsciiLowered(w)[|base| - 1];
    var suffixes :|
      && LeastFree(Candidates(base), taken, names, suffixes)
      && forall i :: 0 <= i < |suffixes| ==> suffixes[i] <= |taken| + count;
    LeastFreeIsNumbered(base, taken, names, suffixes);
  }

  lemma LeastFreeIsNumbered(base: string, taken: set<string>, names: seq<string>, suffixes: seq<nat>)
    requires base != [] && |base| <= MAX_SLUG && base[|base| - 1] != '-'
    requires LeastFree(Candidates(base), taken, names, suffixes)
    requires forall i :: 0 <= i < |suffixes| ==> suffixes[i] < U32
    ensures NumberedBy(base, taken, names, suffixes)
  {
    forall s: nat | s < U32
      ensures Candidates(base)(s) == base + "-" + Decimal(s)
    {
      ShortBaseIsKept(base, s);
    }
  }

  /** With none of them taken the numbers are 1, 2, 3 and so on. */
  lemma {:induction false} NumberedFromOne(
    base: string, taken: set<string>, names: seq<string>, suffixes: seq<nat>, k: nat)
    requires NumberedBy(base, taken, names, suffixes) && k < |names|
    requires forall s: nat :: 1 <= s <= |names| ==> base + "-" + Decimal(s) !in taken
    ensures names[k] == base + "-" + Decimal(k + 1) && suffixes[k] == k + 1
  {
    forall j: nat | j < k
      ensures suffixes[j] == j + 1
    {
      NumberedFromOne(base, taken, names, suffixes, j);
    }
    assert suffixes[k] > k + 1 ==> k + 1 !in suffixes;
    if k > 0 {
      assert suffixes[k - 1] < suffixes[k];
    }
  }

  /** `names` are `base`-n for increasing numbers n, skipping only names that are taken. */
  ghost predicate Numbered(base: string, taken: set<string>, names: seq<string>) {
    exists suffixes :: NumberedBy(base, taken, names, suffixes)
  }

  ghost predicate NumberedBy(base: string, taken: set<string>, names: seq<string>, suffixes: seq<nat>) {
    && |names| == |suffixes|
    && (forall i :: 0 <= i < |names| ==>
      suffixes[i] >= 1 && names[i] == base + "-" + Decimal(suffixes[i]) && names[i] !in taken)
    && (forall i, j :: 0 <= i < j < |suffixes| ==> suffixes[i] < suffixes[j])
    && (forall i, s: nat :: 0 <= i < |suffixes| && 1 <= s < suffixes[i] && s !in suffixes ==>
      base + "-" + Decimal(s) in taken)
  }

  /** machine.rs `allocate_clone_names`. None stands for its error: the one explicit name
      is taken, or no directory name can be derived from the repository. */
  method AllocateCloneNames(
    requested: Option<string>, repository: string, count: nat, taken: set<string>, lower: char -> string)
    returns (r: Option<seq<string>>)
    requires LowerCases(lower) && |taken| + count < U32
    requires requested.Some? ==> ValidName(requested.value)
    ensures r.Some? ==>
      && |r.value| == count
      && (forall i :: 0 <= i < count ==> ValidName(r.value[i]) && r.value[i] !in taken)
      && (forall i, j :: 0 <= i < j < count ==> r.value[i] != r.value[j])
    ensures r.None? <==>
      if count == 1 && requested.Some? then requested.value in taken
      else RepositoryDirectory(repository, lower).None?
    ensures r.Some? ==> Allocated(requested, repository, count, taken, lower, r.value)
  {
    if count == 1 && requested.Some? {
      if requested.value in taken {
        return None;
      }
      return Some([requested.value]);
    }
    var slug := ComputeSlug(StripSuffix(Tail(TrimEnd(repository, '/')), ".git"), lower);
    if slug == [] {
      return None;
    }
    SlugIsValidName(StripSuffix(Tail(TrimEnd(repository, '/')), ".git"), lower);
    var base := if requested.Some? then requested.value else slug;
    var names, suffixes := SuffixedNames(base, count, taken);
    assert LeastFree(Candidates(CloneBase(requested, repository, lower)), taken, names, suffixes);
    return Some(names);
  }

  // ---------------------------------------------------------------- vsock CIDs

  const FIRST_CID: nat := 4096

  predicate Cid(c: int) {
    FIRST_CID <= c < U32
  }

  function NextCid(c: nat): (n: nat)
    requires Cid(c)
    ensures Cid(n)
  {
    if c + 1 < U32 then c + 1 else FIRST_CID
  }

  /** How many steps the wrapping probe takes from `from` to `to`. */
  function Distance(from: nat, to: nat): nat
    requires Cid(from) && Cid(to)
  {
    if from <= to then to - from else to - from + (U32 - FIRST_CID)
  }

  /** The probe loop of `new_record`. `first` comes from the low 30 bits of a UUID word.
      It ends at the first free CID in probe order. */
  method ProbeCid(first: nat, used: set<nat>) returns (cid: nat)
    requires first <= 0x3fff_ffff
    requires exists free :: Cid(free) && free !in used
    ensures Cid(cid) && cid !in used
    ensures forall c :: Cid(c) && Distance(FIRST_CID + first, c) < Distance(FIRST_CID + first, cid) ==> c in used
  {
    ghost var free :| Cid(free) && free !in used;
    var start := FIRST_CID + first;
    cid := start;
    while cid in used
      invariant Cid(cid)
      invariant Distance(start, cid) <= Distance(start, free)
      invariant forall c :: Cid(c) && Distance(start, c) < Distance(start, cid) ==> c in used
      decreases Distance(cid, free)
    {
      cid := NextCid(cid);
    }
  }

  ghost function Range(low: nat, high: nat): (s: set<nat>)
    requires low <= high
    ensures forall c :: c in s <==> low <= c < high
    decreases high - low
  {
    if low == high then {} else {low} + Range(low + 1, high)
  }

  lemma {:induction false} CountRange(low: nat, high: nat)
    requires low <= high
    ensures |Range(low, high)| == high - low
    decreases high - low
  {
    if low < high {
      CountRange(low + 1, high);
    }
  }

  /** The loop ends exactly when not every CID from 4096 up is in use; fewer than
      2^32 - 4096 used CIDs are enough. */
  lemma FreeCidExists(used: set<nat>)
    requires |used| < U32 - FIRST_CID
    ensures exists free :: Cid(free) && free !in used
  {
    CountRange(FIRST_CID, U32);
    if forall c :: Cid(c) ==> c in used {
      CardinalityOfSubset(Range(FIRST_CID, U32), used);
    }
  }

  /** With every CID in use, no number of probe steps finds a free one. */
  lemma {:induction false} ProbeNeverEnds(start: nat, used: set<nat>, steps: nat)
    requires Cid(start) && forall c: nat :: Cid(c) ==> c in used
    ensures Probe(start, steps) in used
    decreases steps
  {
    if steps > 0 {
      ProbeNeverEnds(NextCid(start), used, steps - 1);
    }
  }

  function Probe(start: nat, steps: nat): nat
    requires Cid(start)
    decreases steps
  {
    if steps == 0 then start else Probe(NextCid(start), steps - 1)
  }
}
