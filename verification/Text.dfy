/** Material names: upper-casing and the two notions of trimming that meet in the stock tables. */
module Text {

  /** Upper case of ASCII letters. */
  function UpperChar(c: char): char {
    if 'a' <= c <= 'z' then 'A' + (c - 'a') else c
  }

  function Upper(s: string): (r: string)
    ensures |r| == |s|
  {
    if s == "" then "" else [UpperChar(s[0])] + Upper(s[1..])
  }

  function TrimLeft(s: string, blanks: set<char>): string {
    if s != "" && s[0] in blanks then TrimLeft(s[1..], blanks) else s
  }

  function TrimRight(s: string, blanks: set<char>): string {
    if s != "" && s[|s| - 1] in blanks then TrimRight(s[..|s| - 1], blanks) else s
  }

  function Trim(s: string, blanks: set<char>): string { TrimRight(TrimLeft(s, blanks), blanks) }

  /** What JavaScript's trim removes (ASCII part) and what SQL's TRIM removes. */
  const JS_BLANKS: set<char> := {' ', '\t', '\n', '\r'}
  const SQL_BLANKS: set<char> := {' '}

  /** toUpperCase().trim() in the services. */
  function Norm(s: string): string { Trim(Upper(s), JS_BLANKS) }

  /** UPPER(TRIM(...)) in the queries. */
  function SqlNorm(s: string): string { Upper(Trim(s, SQL_BLANKS)) }

  /** Nothing to trim at either end. */
  predicate Tight(s: string, blanks: set<char>) {
    s == "" || (s[0] !in blanks && s[|s| - 1] !in blanks)
  }

  lemma UpperBlank(c: char)
    ensures UpperChar(c) in JS_BLANKS <==> c in JS_BLANKS
    ensures UpperChar(c) in SQL_BLANKS <==> c in SQL_BLANKS
    ensures UpperChar(UpperChar(c)) == UpperChar(c)
  {
  }

  lemma {:induction false} UpperAt(s: string, i: nat)
    requires i < |s|
    ensures Upper(s)[i] == UpperChar(s[i])
  {
    if i > 0 { UpperAt(s[1..], i - 1); }
  }

  lemma UpperPointwise(s: string)
    ensures forall i :: 0 <= i < |s| ==> Upper(s)[i] == UpperChar(s[i])
  {
    forall i | 0 <= i < |s| ensures Upper(s)[i] == UpperChar(s[i]) { UpperAt(s, i); }
  }

  lemma UpperSlice(s: string, a: nat, b: nat)
    requires a <= b <= |s|
    ensures Upper(s[a..b]) == Upper(s)[a..b]
  {
    var part, upper := Upper(s[a..b]), Upper(s);
    assert |part| == b - a && |upper| == |s|;
    forall i | 0 <= i < b - a ensures part[i] == upper[a + i] { UpperSliceAt(s, a, b, i); }
    SliceIs(part, upper, a, b);
  }

  lemma SliceIs(part: string, whole: string, a: nat, b: nat)
    requires a <= b <= |whole| && |part| == b - a
    requires forall i :: 0 <= i < b - a ==> part[i] == whole[a + i]
    ensures part == whole[a..b]
  {
  }

  lemma UpperSliceAt(s: string, a: nat, b: nat, i: nat)
    requires a <= b <= |s| && i < b - a
    ensures Upper(s[a..b])[i] == Upper(s)[a + i]
  {
    UpperAt(s[a..b], i);
    UpperAt(s, a + i);
  }

  lemma UpperTwice(s: string)
    ensures Upper(Upper(s)) == Upper(s)
  {
    UpperPointwise(s);
    UpperPointwise(Upper(s));
    forall i | 0 <= i < |s| ensures Upper(Upper(s))[i] == Upper(s)[i] { UpperBlank(s[i]); }
  }

  lemma {:induction false} TrimLeftTight(s: string, blanks: set<char>)
    ensures TrimLeft(s, blanks) == "" || TrimLeft(s, blanks)[0] !in blanks
    ensures |TrimLeft(s, blanks)| <= |s| && TrimLeft(s, blanks) == s[|s| - |TrimLeft(s, blanks)|..]
  {
    if s != "" && s[0] in blanks { TrimLeftTight(s[1..], blanks); }
  }

  lemma {:induction false} TrimRightTight(s: string, blanks: set<char>)
    ensures TrimRight(s, blanks) <= s
    ensures TrimRight(s, blanks) == "" || TrimRight(s, blanks)[|TrimRight(s, blanks)| - 1] !in blanks
  {
    if s != "" && s[|s| - 1] in blanks { TrimRightTight(s[..|s| - 1], blanks); }
  }

  /** Trimming leaves a tight text. */
  lemma TrimIsTight(s: string, blanks: set<char>)
    ensures Tight(Trim(s, blanks), blanks)
  {
    TrimLeftTight(s, blanks);
    TrimRightTight(TrimLeft(s, blanks), blanks);
  }

  lemma TightIsTrimmed(s: string, blanks: set<char>)
    requires Tight(s, blanks)
    ensures Trim(s, blanks) == s
  {
  }

  lemma {:induction false} UpperTrimLeft(s: string)
    ensures Upper(TrimLeft(s, SQL_BLANKS)) == TrimLeft(Upper(s), SQL_BLANKS)
  {
    if s != "" {
      UpperBlank(s[0]);
      if s[0] in SQL_BLANKS {
        UpperTrimLeft(s[1..]);
        assert Upper(s)[1..] == Upper(s[1..]);
      }
    }
  }

  lemma {:induction false} UpperTrimRight(s: string)
    ensures Upper(TrimRight(s, SQL_BLANKS)) == TrimRight(Upper(s), SQL_BLANKS)
  {
    if s != "" {
      var last := |s| - 1;
      UpperBlank(s[last]);
      UpperAt(s, last);
      UpperSlice(s, 0, last);
      if s[last] in SQL_BLANKS { UpperTrimRight(s[..last]); }
    }
  }

  /** Upper-casing and trimming commute. */
  lemma SqlNormIsTrimmedUpper(s: string)
    ensures SqlNorm(s) == Trim(Upper(s), SQL_BLANKS)
  {
    UpperTrimLeft(s);
    UpperTrimRight(TrimLeft(s, SQL_BLANKS));
  }

  lemma UpperPartIsUpper(s: string, a: nat, b: nat)
    requires a <= b <= |s| && Upper(s) == s
    ensures Upper(s[a..b]) == s[a..b]
  {
    UpperSlice(s, a, b);
  }

  lemma {:induction false} UpperOfTrimmed(s: string, blanks: set<char>)
    requires Upper(s) == s
    ensures Upper(Trim(s, blanks)) == Trim(s, blanks)
  {
    TrimLeftTight(s, blanks);
    var left := TrimLeft(s, blanks);
    UpperPartIsUpper(s, |s| - |left|, |s|);
    assert s[|s| - |left|..|s|] == left;
    TrimRightTight(left, blanks);
    var t := TrimRight(left, blanks);
    UpperPartIsUpper(left, 0, |t|);
    assert left[0..|t|] == t;
  }

  // ---------- What the texts are ----------

  /** Letters a to z become A to Z, and every other character stays. */
  lemma UpperCharIs(c: char)
    ensures 'a' <= c <= 'z' ==> UpperChar(c) as int == c as int - 32
    ensures !('a' <= c <= 'z') ==> UpperChar(c) == c
  {
  }

  predicate BlankBetween(s: string, a: nat, b: nat, blanks: set<char>)
    requires a <= b <= |s|
  {
    forall k :: a <= k < b ==> s[k] in blanks
  }

  lemma {:induction false} TrimLeftDrops(s: string, blanks: set<char>)
    ensures |TrimLeft(s, blanks)| <= |s| && BlankBetween(s, 0, |s| - |TrimLeft(s, blanks)|, blanks)
  {
    if s != "" && s[0] in blanks {
      var rest := s[1..];
      TrimLeftDrops(rest, blanks);
      forall k | 0 < k < |s| - |TrimLeft(s, blanks)| ensures s[k] in blanks { assert rest[k - 1] in blanks; }
    }
  }

  lemma {:induction false} TrimRightDrops(s: string, blanks: set<char>)
    ensures |TrimRight(s, blanks)| <= |s| && BlankBetween(s, |TrimRight(s, blanks)|, |s|, blanks)
  {
    if s != "" && s[|s| - 1] in blanks {
      var front := s[..|s| - 1];
      TrimRightDrops(front, blanks);
      forall k | |TrimRight(s, blanks)| <= k < |s| - 1 ensures s[k] in blanks { assert front[k] in blanks; }
    }
  }

  lemma TrimRange(s: string, blanks: set<char>) returns (i: nat, j: nat)
    ensures i <= j <= |s| && Trim(s, blanks) == s[i..j]
    ensures i == |s| - |TrimLeft(s, blanks)| && TrimLeft(s, blanks) == s[i..] && j == i + |Trim(s, blanks)|
  {
    TrimLeftTight(s, blanks);
    var left := TrimLeft(s, blanks);
    TrimRightTight(left, blanks);
    i := |s| - |left|;
    j := i + |TrimRight(left, blanks)|;
    assert left[..j - i] == s[i..j];
  }

  /** Trimming takes off blanks at both ends, all of them and nothing else. */
  lemma TrimIs(s: string, blanks: set<char>) returns (i: nat, j: nat)
    ensures i <= j <= |s| && Trim(s, blanks) == s[i..j]
    ensures BlankBetween(s, 0, i, blanks) && BlankBetween(s, j, |s|, blanks)
    ensures i < j ==> s[i] !in blanks && s[j - 1] !in blanks
  {
    i, j := TrimRange(s, blanks);
    TrimLeftDrops(s, blanks);
    TrimRightDrops(s[i..], blanks);
    forall k | j <= k < |s| ensures s[k] in blanks { assert s[i..][k - i] in blanks; }
    TrimIsTight(s, blanks);
  }

  /** The name a service files a material under: upper case, without the spaces, tabs and line ends around it. */
  lemma NormIs(s: string) returns (i: nat, j: nat)
    ensures i <= j <= |s| && |Norm(s)| == j - i
    ensures forall k :: i <= k < j ==> Norm(s)[k - i] == UpperChar(s[k])
    ensures forall k :: 0 <= k < i || j <= k < |s| ==> s[k] in {' ', '\t', '\n', '\r'}
    ensures i < j ==> s[i] !in {' ', '\t', '\n', '\r'} && s[j - 1] !in {' ', '\t', '\n', '\r'}
  {
    i, j := TrimIs(Upper(s), JS_BLANKS);
    UpperPointwise(s);
    forall k | 0 <= k < i || j <= k < |s| ensures s[k] in JS_BLANKS {
      UpperBlank(s[k]);
    }
    if i < j {
      UpperBlank(s[i]);
      UpperBlank(s[j - 1]);
    }
  }

  /** The name a query compares with: upper case, without the spaces around it. */
  lemma SqlNormIs(s: string) returns (i: nat, j: nat)
    ensures i <= j <= |s| && |SqlNorm(s)| == j - i
    ensures forall k :: i <= k < j ==> SqlNorm(s)[k - i] == UpperChar(s[k])
    ensures forall k :: 0 <= k < i || j <= k < |s| ==> s[k] == ' '
    ensures i < j ==> s[i] != ' ' && s[j - 1] != ' '
  {
    i, j := TrimIs(s, SQL_BLANKS);
    UpperPointwise(s[i..j]);
  }

  /** A name normalised by the services is upper case, and its own class in the queries. */
  lemma NormIsCanonical(s: string)
    ensures Upper(Norm(s)) == Norm(s)
    ensures SqlNorm(Norm(s)) == Norm(s)
  {
    UpperTwice(s);
    UpperOfTrimmed(Upper(s), JS_BLANKS);
    TrimIsTight(Upper(s), JS_BLANKS);
    assert Tight(Norm(s), SQL_BLANKS);
    SqlNormIsTrimmedUpper(Norm(s));
    TightIsTrimmed(Norm(s), SQL_BLANKS);
  }

  /** A row that equals a normalised name up to case is in that name's class. */
  lemma InsensitiveMatchIsInClass(row: string, name: string)
    requires Upper(row) == name && SqlNorm(name) == name
    ensures SqlNorm(row) == name
  {
    SqlNormIsTrimmedUpper(row);
    SqlNormIsTrimmedUpper(name);
    UpperTwice(row);
  }

  lemma {:induction false} WiderTrimLeft(s: string)
    requires TrimLeft(s, SQL_BLANKS) != "" && TrimLeft(s, SQL_BLANKS)[0] !in JS_BLANKS
    ensures TrimLeft(s, JS_BLANKS) == TrimLeft(s, SQL_BLANKS)
  {
    if s[0] in SQL_BLANKS { WiderTrimLeft(s[1..]); }
  }

  lemma {:induction false} WiderTrimRight(s: string)
    requires TrimRight(s, SQL_BLANKS) != ""
    requires TrimRight(s, SQL_BLANKS)[|TrimRight(s, SQL_BLANKS)| - 1] !in JS_BLANKS
    ensures TrimRight(s, JS_BLANKS) == TrimRight(s, SQL_BLANKS)
  {
    if s[|s| - 1] in SQL_BLANKS { WiderTrimRight(s[..|s| - 1]); }
  }

  /** A row the locking query finds for a normalised name is filed by the service under that very name. */
  lemma LockedRowIsFiledUnderName(row: string, name: string)
    requires SqlNorm(row) == name && name != "" && Tight(name, JS_BLANKS)
    ensures Norm(row) == name
  {
    SqlNormIsTrimmedUpper(row);
    var u := Upper(row);
    var l := TrimLeft(u, SQL_BLANKS);
    TrimRightTight(l, SQL_BLANKS);
    assert l[0] == name[0];
    WiderTrimLeft(u);
    WiderTrimRight(l);
  }
}
