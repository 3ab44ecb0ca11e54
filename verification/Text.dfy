/** Byte-string searching, trimming and splitting, as the helpers of httplib.h do it.
    A `char` stands for one byte of a std::string. */
module Text {

  datatype Option<+T> = None | Some(value: T)

  const CRLF := "\r\n"
  /** `CPPHTTPLIB_HEADER_MAX_LENGTH`. */
  const HEADER_MAX_LENGTH: nat := 8192

  /** The white space of \s and of `isspace`. */
  predicate IsSpace(c: char) { c == ' ' || '\t' <= c <= '\r' }

  function SkipSpace(s: string): string {
    if s != "" && IsSpace(s[0]) then SkipSpace(s[1..]) else s
  }

  // ---------------------------------------------------------------- searching

  /** `t` occurs in `s` at index `i`. */
  predicate MatchAt(s: string, t: string, i: nat) {
    i + |t| <= |s| && s[i..i + |t|] == t
  }

  /** The least index at or after `i` where `t` occurs in `s`, or |s| when there is none. */
  function FindFrom(s: string, t: string, i: nat): (r: nat)
    requires i <= |s|
    ensures i <= r <= |s| && (r < |s| ==> r + |t| <= |s|)
    decreases |s| - i
  {
    if i + |t| > |s| then |s| else if MatchAt(s, t, i) then i else if i == |s| then |s| else FindFrom(s, t, i + 1)
  }

  function Find(s: string, t: string): (r: nat)
    ensures r <= |s| && (r < |s| ==> r + |t| <= |s|)
  {
    FindFrom(s, t, 0)
  }

  predicate NoMatchIn(s: string, t: string, lo: nat, hi: nat) {
    forall j: nat :: lo <= j < hi ==> !MatchAt(s, t, j)
  }

  lemma {:induction false} FindFromSpec(s: string, t: string, i: nat)
    requires i <= |s|
    ensures var r := FindFrom(s, t, i); (r < |s| ==> MatchAt(s, t, r)) && NoMatchIn(s, t, i, r)
    decreases |s| - i
  {
    if i + |t| <= |s| && !MatchAt(s, t, i) && i < |s| {
      FindFromSpec(s, t, i + 1);
    }
  }

  /** `Find` returns the least match, or the length of `s` when there is none. */
  lemma FindSpec(s: string, t: string)
    ensures var r := Find(s, t); (r < |s| ==> MatchAt(s, t, r)) && NoMatchIn(s, t, 0, r)
  {
    FindFromSpec(s, t, 0);
  }

  /** A match with none before it is the one `Find` returns. */
  lemma FindIs(s: string, t: string, i: nat)
    requires t != "" && MatchAt(s, t, i) && NoMatchIn(s, t, 0, i)
    ensures Find(s, t) == i
  {
    FindSpec(s, t);
  }

  lemma FindNone(s: string, t: string)
    requires t != "" && NoMatchIn(s, t, 0, |s|)
    ensures Find(s, t) == |s|
  {
    FindSpec(s, t);
  }

  lemma MatchInPrefix(s: string, u: string, t: string, i: nat)
    requires i + |t| <= |s|
    ensures MatchAt(s + u, t, i) <==> MatchAt(s, t, i)
  {
    assert (s + u)[i..i + |t|] == s[i..i + |t|];
  }

  /** The first character of `t` occurs nowhere else in it, so `t` cannot overlap itself. */
  predicate FreshHead(t: string) {
    t != "" && t[0] !in t[1..]
  }

  /** When `s` does not hold `t`, the first `t` in s + t + u is the one after `s`. */
  lemma FindAfter(s: string, t: string, u: string)
    requires FreshHead(t) && NoMatchIn(s, t, 0, |s|)
    ensures Find(s + t + u, t) == |s|
  {
    var w := s + t + u;
    assert w[|s|..|s| + |t|] == t;
    forall j: nat | j < |s| ensures !MatchAt(w, t, j) {
      if j + |t| <= |s| {
        assert w[j..j + |t|] == s[j..j + |t|];
        assert !MatchAt(s, t, j);
      } else {
        assert w[j..j + |t|][|s| - j] == t[0];
        assert t[|s| - j] == t[1..][|s| - j - 1];
      }
    }
    FindIs(w, t, |s|);
  }

  /** What `Find` returns on a prefix of the text, told from what it returns on the whole. */
  lemma FindInPrefix(s: string, u: string, t: string)
    requires t != ""
    ensures var f := Find(s + u, t); Find(s, t) == if f < |s + u| && f + |t| <= |s| then f else |s|
  {
    var f := Find(s + u, t);
    FindSpec(s + u, t);
    forall j: nat | j + |t| <= |s| ensures MatchAt(s, t, j) <==> MatchAt(s + u, t, j) {
      MatchInPrefix(s, u, t, j);
    }
    if f < |s + u| && f + |t| <= |s| {
      FindIs(s, t, f);
    } else {
      FindNone(s, t);
    }
  }

  /** Dropping text before the first match moves the match. */
  lemma FindInSuffix(s: string, t: string, n: nat)
    requires t != "" && n <= Find(s, t) < |s|
    ensures Find(s[n..], t) == Find(s, t) - n
  {
    FindSpec(s, t);
    forall j: nat | j + |t| <= |s| - n ensures MatchAt(s[n..], t, j) <==> MatchAt(s, t, n + j) {
      assert s[n..][j..j + |t|] == s[n + j..n + j + |t|];
    }
    FindIs(s[n..], t, Find(s, t) - n);
  }

  lemma Assoc<T>(s: seq<T>, t: seq<T>, u: seq<T>)
    ensures s + (t + u) == s + t + u
  {
  }

  /** Cutting a concatenation inside its first part. */
  lemma CutFirst(s: string, u: string, m: nat)
    requires m <= |s|
    ensures (s + u)[m..] == s[m..] + u && (s + u)[..m] == s[..m]
  {
  }

  /** Reading on in a text whose part from `k` on is s + u. */
  lemma CutLater(text: string, k: nat, s: string, u: string, f: nat, n: nat)
    requires k <= |text| && text[k..] == s + u && f + n <= |s|
    ensures k + |s| <= |text| && text[k + |s|..] == u
    ensures text[k + f..] == s[f..] + u && text[k + f..k + f + n] == s[f..f + n]
  {
    assert text[k + |s|..] == text[k..][|s|..];
    CutFirst(s, u, f);
    assert text[k + f..] == text[k..][f..];
    assert text[k + f..k + f + n] == text[k + f..][..n] && (s[f..] + u)[..n] == s[f..f + n];
  }

  lemma DropFirst(s: string, t: string, u: string)
    ensures (s + t + u)[|s|..] == t + u
  {
  }

  // ---------------------------------------------------------------- joining

  function Joined(chunks: seq<string>): string {
    if chunks == [] then "" else chunks[0] + Joined(chunks[1..])
  }

  lemma {:induction false} JoinedAppend(chunks: seq<string>, x: string)
    ensures Joined(chunks + [x]) == Joined(chunks) + x
  {
    if chunks == [] {
      assert chunks + [x] == [x] && [x][1..] == [] && x + "" == x && "" + x == x;
    } else {
      assert (chunks + [x])[1..] == chunks[1..] + [x];
      JoinedAppend(chunks[1..], x);
      Assoc(chunks[0], Joined(chunks[1..]), x);
    }
  }

  lemma {:induction false} JoinedBoth(a: seq<string>, b: seq<string>)
    ensures Joined(a + b) == Joined(a) + Joined(b)
  {
    if a == [] {
      assert a + b == b && "" + Joined(b) == Joined(b);
    } else {
      assert (a + b)[1..] == a[1..] + b;
      JoinedBoth(a[1..], b);
      Assoc(a[0], Joined(a[1..]), Joined(b));
    }
  }

  // ---------------------------------------------------------------- trimming

  predicate IsSpaceOrTab(c: char) { c == ' ' || c == '\t' }

  function TrimLeft(s: string): string {
    if s != "" && IsSpaceOrTab(s[0]) then TrimLeft(s[1..]) else s
  }

  function TrimRight(s: string): string {
    if s != "" && IsSpaceOrTab(s[|s| - 1]) then TrimRight(s[..|s| - 1]) else s
  }

  function Trim(s: string): string {
    TrimRight(TrimLeft(s))
  }

  /** Blanks at neither end. */
  predicate Trimmed(s: string) {
    s != "" ==> !IsSpaceOrTab(s[0]) && !IsSpaceOrTab(s[|s| - 1])
  }

  lemma {:induction false} TrimLeftSuffix(s: string)
    ensures var r := TrimLeft(s); (r == "" || !IsSpaceOrTab(r[0])) && |r| <= |s| && s[|s| - |r|..] == r
  {
    if s != "" && IsSpaceOrTab(s[0]) {
      TrimLeftSuffix(s[1..]);
      var r := TrimLeft(s[1..]);
      assert s[|s| - |r|..] == s[1..][|s| - 1 - |r|..];
    }
  }

  lemma {:induction false} TrimRightPrefix(s: string)
    ensures var r := TrimRight(s); (r == "" || !IsSpaceOrTab(r[|r| - 1])) && r <= s
  {
    if s != "" && IsSpaceOrTab(s[|s| - 1]) {
      TrimRightPrefix(s[..|s| - 1]);
    }
  }

  lemma TrimResult(s: string)
    ensures Trimmed(Trim(s)) && |Trim(s)| <= |s|
    ensures forall c :: c in Trim(s) ==> c in s
  {
    var l := TrimLeft(s);
    TrimLeftSuffix(s);
    TrimRightPrefix(l);
    assert forall c :: c in l ==> c in s;
  }

  lemma TrimIdentity(s: string)
    ensures Trim(s) == s <==> Trimmed(s)
  {
    TrimResult(s);
  }

  lemma TrimLeadingBlank(s: string)
    ensures Trim(" " + s) == Trim(s)
  {
    assert (" " + s)[1..] == s;
  }

  predicate AllBlank(s: string) {
    forall k :: 0 <= k < |s| ==> IsSpaceOrTab(s[k])
  }

  lemma {:induction false} TrimBlank(s: string)
    requires AllBlank(s)
    ensures Trim(s) == ""
  {
    if s != "" {
      TrimBlank(s[1..]);
    }
  }

  lemma {:induction false} TrimLeftIs(pre: string, core: string)
    requires AllBlank(pre) && core != "" && !IsSpaceOrTab(core[0])
    ensures TrimLeft(pre + core) == core
  {
    if pre == "" {
      assert pre + core == core;
    } else {
      assert (pre + core)[1..] == pre[1..] + core;
      TrimLeftIs(pre[1..], core);
    }
  }

  lemma {:induction false} TrimRightIs(core: string, post: string)
    requires AllBlank(post) && core != "" && !IsSpaceOrTab(core[|core| - 1])
    ensures TrimRight(core + post) == core
  {
    if post == "" {
      assert core + post == core;
    } else {
      var n := |post| - 1;
      assert (core + post)[..|core| + n] == core + post[..n];
      TrimRightIs(core, post[..n]);
    }
  }

  lemma {:induction false} TrimRightKeeps(a: string, b: string)
    requires a != "" && !IsSpaceOrTab(a[|a| - 1])
    ensures a <= TrimRight(a + b)
    decreases |b|
  {
    if b == "" {
      assert a + b == a;
    } else if IsSpaceOrTab(b[|b| - 1]) {
      assert (a + b)[..|a + b| - 1] == a + b[..|b| - 1];
      TrimRightKeeps(a, b[..|b| - 1]);
    }
  }

  /** A blank prefix, a core with non-blank ends and a blank suffix determine the trimmed string. */
  lemma TrimIs(pre: string, core: string, post: string)
    requires AllBlank(pre) && AllBlank(post) && core != "" && Trimmed(core)
    ensures Trim(pre + core + post) == core
  {
    assert pre + core + post == pre + (core + post);
    TrimLeftIs(pre, core + post);
    TrimRightIs(core, post);
  }

  /** Blanks and tabs go from both ends, and nothing else does. */
  lemma TrimsBlanksAndTabs(pre: string, core: string, post: string)
    requires (forall c :: c in pre + post ==> c in " \t") && core != ""
    requires core[0] !in " \t" && core[|core| - 1] !in " \t"
    ensures Trim(pre + core + post) == core
  {
    hide Trim;
    assert forall k :: 0 <= k < |pre| ==> pre[k] in pre + post;
    assert forall k :: 0 <= k < |post| ==> post[k] in pre + post;
    TrimIs(pre, core, post);
  }

  /** The index pair that `trim` computes, for the piece [left0, right0) of `b`. */
  method TrimRange(b: string, left0: nat, right0: nat) returns (left: nat, right: nat)
    requires left0 <= right0 <= |b|
    ensures right <= right0 && left0 <= left <= |b|
    ensures left < right ==> b[left..right] == Trim(b[left0..right0]) != ""
    ensures left >= right ==> Trim(b[left0..right0]) == ""
  {
    left, right := left0, right0;
    while left < |b| && IsSpaceOrTab(b[left])
      invariant left0 <= left <= |b|
      invariant forall k :: left0 <= k < left ==> IsSpaceOrTab(b[k])
    {
      left := left + 1;
    }
    while right > 0 && IsSpaceOrTab(b[right - 1])
      invariant right <= right0
      invariant forall k :: right <= k < right0 ==> IsSpaceOrTab(b[k])
    {
      right := right - 1;
    }
    if left < right {
      assert b[left0..right0] == b[left0..left] + b[left..right] + b[right..right0];
      TrimIs(b[left0..left], b[left..right], b[right..right0]);
    } else {
      TrimBlank(b[left0..right0]);
    }
  }

  // ---------------------------------------------------------------- splitting

  function IndexOf(s: string, d: char): (r: nat)
    ensures r <= |s|
    ensures r < |s| ==> s[r] == d
    ensures forall k :: 0 <= k < r ==> s[k] != d
  {
    if s == "" then 0 else if s[0] == d then 0 else 1 + IndexOf(s[1..], d)
  }

  function NonEmpty(piece: string): seq<string> {
    if piece == "" then [] else [piece]
  }

  /** The trimmed, non-empty pieces of `s` between the delimiters `d`. */
  function Split(s: string, d: char): seq<string> {
    var i := IndexOf(s, d);
    NonEmpty(Trim(s[..i])) + if i == |s| then [] else Split(s[i + 1..], d)
  }

  lemma IndexOfIs(s: string, d: char, i: nat)
    requires i <= |s|
    requires i < |s| ==> s[i] == d
    requires forall k :: 0 <= k < i ==> s[k] != d
    ensures IndexOf(s, d) == i
  {
    var r := IndexOf(s, d);
  }

  lemma SplitLast(s: string, d: char)
    requires d !in s
    ensures Split(s, d) == NonEmpty(Trim(s))
  {
    IndexOfIs(s, d, |s|);
    assert s[..|s|] == s;
  }

  lemma SplitFirst(a: string, d: char, b: string)
    requires d !in a
    ensures Split(a + [d] + b, d) == NonEmpty(Trim(a)) + Split(b, d)
  {
    var s := a + [d] + b;
    IndexOfIs(s, d, |a|);
    assert s[..|a|] == a && s[|a| + 1..] == b;
  }

  /** A delimiter splits a text into the pieces before it and those behind. */
  lemma {:induction false} SplitBoth(a: string, d: char, b: string)
    ensures Split(a + [d] + b, d) == Split(a, d) + Split(b, d)
    decreases |a|
  {
    hide Trim, Split;
    var i := IndexOf(a, d);
    if i == |a| {
      SplitFirst(a, d, b);
      SplitLast(a, d);
    } else {
      var x, y := a[..i], a[i + 1..];
      CutAt(a, i, d, b);
      SplitFirst(x, d, y + [d] + b);
      SplitFirst(x, d, y);
      SplitBoth(y, d, b);
      Assoc(NonEmpty(Trim(x)), Split(y, d), Split(b, d));
    }
  }

  lemma CutAt(a: string, i: nat, d: char, b: string)
    requires i < |a| && a[i] == d
    ensures a == a[..i] + [d] + a[i + 1..] && a + [d] + b == a[..i] + [d] + (a[i + 1..] + [d] + b)
  {
    assert a == a[..i] + [d] + a[i + 1..];
  }

  /** Blanks around a text do not change its pieces. */
  lemma SplitOfTrimmed(s: string, d: char)
    requires !IsSpaceOrTab(d)
    ensures Split(Trim(s), d) == Split(s, d)
  {
    hide Split;
    BlanksBefore(s, d);
    BlanksAfter(TrimLeft(s), d);
  }

  lemma {:induction false} BlanksBefore(s: string, d: char)
    requires !IsSpaceOrTab(d)
    ensures Split(TrimLeft(s), d) == Split(s, d)
    decreases |s|
  {
    if s != "" && IsSpaceOrTab(s[0]) {
      var t := s[1..];
      var i := IndexOf(t, d);
      assert s == [s[0]] + t;
      SplitAfter([s[0]], t, d);
      assert "" + t == t && "" + t[..i] == t[..i] && ([s[0]] + t[..i])[1..] == t[..i];
      SplitAfter("", t, d);
      BlanksBefore(t, d);
    }
  }

  lemma {:induction false} BlanksAfter(s: string, d: char)
    requires !IsSpaceOrTab(d)
    ensures Split(TrimRight(s), d) == Split(s, d)
    decreases |s|
  {
    if s != "" && IsSpaceOrTab(s[|s| - 1]) {
      BlankAfter(s[..|s| - 1], s[|s| - 1], d);
      assert s == s[..|s| - 1] + [s[|s| - 1]];
      BlanksAfter(s[..|s| - 1], d);
    }
  }

  lemma {:induction false} BlankAfter(s: string, c: char, d: char)
    requires IsSpaceOrTab(c) && c != d
    ensures Split(s + [c], d) == Split(s, d)
    decreases |s|
  {
    hide Trim;
    var i := IndexOf(s, d);
    if i == |s| {
      SplitLast(s, d);
      SplitLast(s + [c], d);
      TrimmedBlank(s, c);
    } else {
      var x, y := s[..i], s[i + 1..];
      assert s + [c] == x + [d] + (y + [c]) && s == x + [d] + y;
      SplitFirst(x, d, y + [c]);
      SplitFirst(x, d, y);
      BlankAfter(y, c, d);
    }
  }

  lemma {:induction false} TrimmedBlank(s: string, c: char)
    requires IsSpaceOrTab(c)
    ensures Trim(s + [c]) == Trim(s)
  {
    if s == "" {
      assert s + [c] == [c] && [c][1..] == "";
    } else if IsSpaceOrTab(s[0]) {
      assert (s + [c])[1..] == s[1..] + [c];
      TrimmedBlank(s[1..], c);
    } else {
      assert (s + [c])[..|s|] == s;
    }
  }

  lemma SplitTwo(a: string, d: char, b: string)
    requires d !in a && d !in b && !IsSpaceOrTab(d)
    requires a != "" && Trim(a) == a && b != "" && Trim(b) == b
    ensures Split(a + [d] + (" " + b), d) == [a, b]
    ensures Split(a, d) == [a]
  {
    TrimLeadingBlank(b);
    SplitFirst(a, d, " " + b);
    assert d !in " " + b;
    SplitLast(" " + b, d);
    SplitLast(a, d);
  }

  /** The split of a text whose first part holds no delimiter. */
  lemma SplitAfter(pre: string, q: string, d: char)
    requires d !in pre
    ensures var i := IndexOf(q, d);
            Split(pre + q, d) == NonEmpty(Trim(pre + q[..i])) + if i == |q| then [] else Split(q[i + 1..], d)
  {
    var i := IndexOf(q, d);
    if i == |q| {
      assert q[..i] == q;
      SplitLast(pre + q, d);
    } else {
      assert pre + q == pre + q[..i] + [d] + q[i + 1..];
      SplitFirst(pre + q[..i], d, q[i + 1..]);
    }
  }

  predicate PieceOf(p: string, s: string, d: char) {
    p != "" && d !in p && Trimmed(p) && |p| <= |s| && forall c :: c in p ==> c in s
  }

  /** Every piece is trimmed, non-empty, free of the delimiter and made of characters of `s`. */
  lemma {:induction false} SplitPieces(s: string, d: char, p: string)
    requires p in Split(s, d)
    ensures PieceOf(p, s, d)
    decreases |s|
  {
    var i := IndexOf(s, d);
    TrimResult(s[..i]);
    if p !in NonEmpty(Trim(s[..i])) {
      SplitPieces(s[i + 1..], d, p);
    }
  }

  /** One trimmed piece of `s`, kept unless it is empty. */
  method Emit(pieces: seq<string>, s: string, beg: nat, end: nat) returns (r: seq<string>)
    requires beg <= end <= |s|
    ensures r == pieces + NonEmpty(Trim(s[beg..end]))
  {
    var left, right := TrimRange(s, beg, end);
    r := if left < right then pieces + [s[left..right]] else pieces;
  }

  /** The loop of `split`, collecting the pieces it hands to its callback. */
  method SplitLoop(s: string, d: char) returns (pieces: seq<string>)
    ensures pieces == Split(s, d)
  {
    pieces := [];
    var i, beg := 0, 0;
    assert s[beg..] == s;
    while i < |s|
      invariant beg <= i <= |s|
      invariant NoneOf(s, d, beg, i)
      invariant pieces + Split(s[beg..], d) == Split(s, d)
    {
      if s[i] == d {
        SplitAdvance(s, d, beg, i, pieces);
        pieces := Emit(pieces, s, beg, i);
        beg := i + 1;
      }
      i := i + 1;
    }
    assert s[beg..i] == s[beg..];
    SplitLast(s[beg..], d);
    if i > 0 {
      pieces := Emit(pieces, s, beg, i);
    }
  }

  predicate NoneOf(s: string, d: char, lo: int, hi: int)
    requires 0 <= lo <= hi <= |s|
  {
    forall k :: lo <= k < hi ==> s[k] != d
  }

  lemma SplitAdvance(s: string, d: char, beg: nat, i: nat, done: seq<string>)
    requires beg <= i < |s| && s[i] == d && NoneOf(s, d, beg, i)
    ensures done + Split(s[beg..], d) == done + NonEmpty(Trim(s[beg..i])) + Split(s[i + 1..], d)
  {
    assert s[beg..] == s[beg..i] + [d] + s[i + 1..];
    SplitFirst(s[beg..i], d, s[i + 1..]);
  }

  /** `trim_double_quotes_copy`: strips one pair of enclosing double quotes. */
  function Unquote(s: string): string {
    if |s| >= 2 && s[0] == '"' && s[|s| - 1] == '"' then s[1..|s| - 1] else s
  }

  // ---------------------------------------------------------------- letter case

  /** `tolower` of the C locale. */
  function Lower(c: char): char {
    if 'A' <= c <= 'Z' then (c as int + 32) as char else c
  }

  /** `start_with_case_ignore`. */
  predicate StartsWithIgnoringCase(a: string, b: string) {
    |a| >= |b| && forall i :: 0 <= i < |b| ==> Lower(a[i]) == Lower(b[i])
  }

  const UPPER := "ABCDEFGHIJKLMNOPQRSTUVWXYZ"
  const LOWER := "abcdefghijklmnopqrstuvwxyz"

  /** The same characters, up to the case of letters. */
  ghost predicate SameLetters(a: string, b: string) {
    |a| == |b| && forall i :: 0 <= i < |a| ==> SameLetter(a[i], b[i])
  }

  ghost predicate SameLetter(c: char, d: char) {
    c == d || exists k :: 0 <= k < 26 && ((c, d) == (UPPER[k], LOWER[k]) || (c, d) == (LOWER[k], UPPER[k]))
  }

  lemma LettersAt(k: nat)
    requires k < 26
    ensures UPPER[k] == ('A' as int + k) as char && LOWER[k] == ('a' as int + k) as char
  {
    FirstLetters(k);
    LastLetters(k);
  }

  lemma FirstLetters(k: nat)
    requires k < 26
    ensures k < 13 ==> UPPER[k] == ('A' as int + k) as char && LOWER[k] == ('a' as int + k) as char
  {
  }

  lemma LastLetters(k: nat)
    requires k < 26
    ensures k >= 13 ==> UPPER[k] == ('A' as int + k) as char && LOWER[k] == ('a' as int + k) as char
  {
  }

  /** Two characters compare equal without regard to case if and only if they are the same letter or equal. */
  lemma LowerIff(c: char, d: char)
    ensures Lower(c) == Lower(d) <==> SameLetter(c, d)
  {
    if SameLetter(c, d) && c != d {
      var k :| 0 <= k < 26 && ((c, d) == (UPPER[k], LOWER[k]) || (c, d) == (LOWER[k], UPPER[k]));
      LettersAt(k);
    } else if Lower(c) == Lower(d) && c != d {
      var k := Lower(c) as int - 'a' as int;
      LettersAt(k);
    }
  }

  /** A prefix is compared without regard to the case of letters, and to nothing else. */
  lemma PrefixIff(a: string, b: string)
    ensures StartsWithIgnoringCase(a, b) <==> |b| <= |a| && SameLetters(a[..|b|], b)
  {
    hide SameLetter, Lower;
    forall i | 0 <= i < |a| && i < |b| ensures Lower(a[i]) == Lower(b[i]) <==> SameLetter(a[i], b[i]) {
      LowerIff(a[i], b[i]);
    }
  }

  /** White space in front of a text that starts otherwise is skipped, all of it. */
  lemma {:induction false} SpaceSkipped(w: string, t: string)
    requires forall c :: c in w ==> c in " \t\n\r" || c as int == 11 || c as int == 12
    requires t == "" || (t[0] !in " \t\n\r" && t[0] as int != 11 && t[0] as int != 12)
    ensures SkipSpace(w + t) == t
  {
    if w == "" {
      assert w + t == t;
    } else {
      assert w[0] in w && (w + t)[1..] == w[1..] + t;
      SpaceSkipped(w[1..], t);
    }
  }
}
