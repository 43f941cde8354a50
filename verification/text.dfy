/** Optional values, standing in for the source's null references and
    "invalid handle" returns. */
module Options {

  datatype Option<+T> = None | Some(value: T)

}

/** ASCII string helpers shared by the parsers: the C-locale character
    classes, case folding, searching, trimming and splitting. */
module Text {

  import opened Options

  predicate IsDigit(c: char) { '0' <= c <= '9' }

  predicate IsAlpha(c: char) { 'a' <= c <= 'z' || 'A' <= c <= 'Z' }

  /** `std::isalnum` in the "C" locale. */
  predicate IsAlnum(c: char) { IsDigit(c) || IsAlpha(c) }

  /** The characters `util::trim` strips. */
  predicate IsSpace(c: char) { c == ' ' || c == '\t' || c == '\r' || c == '\n' }

  function LowerChar(c: char): (r: char)
    ensures IsAlpha(c) <==> IsAlpha(r)
    ensures 'A' <= r <= 'Z' ==> false
    ensures !IsAlpha(c) ==> r == c
  {
    if 'A' <= c <= 'Z' then (c as int + 32) as char else c
  }

  /** `boost::to_lower` on an ASCII string. */
  function ToLower(s: string): (r: string)
    ensures |r| == |s|
    ensures forall i :: 0 <= i < |s| ==> r[i] == LowerChar(s[i])
  {
    seq(|s|, i requires 0 <= i < |s| => LowerChar(s[i]))
  }

  /** `t` occurs in `s` as a contiguous substring (`boost::contains`). */
  predicate Contains(s: string, t: string)
    decreases |s|
  {
    t <= s || (|s| > 0 && Contains(s[1..], t))
  }

  /** `boost::icontains`: containment after ASCII case folding. */
  predicate IContains(s: string, t: string) {
    Contains(ToLower(s), ToLower(t))
  }

  lemma ContainsEmpty(s: string)
    ensures Contains(s, "")
  {
  }

  /** Nothing non-empty is contained in the empty string. */
  lemma NotContainedInEmpty(t: string)
    requires |t| > 0
    ensures !Contains("", t) && !IContains("", t)
  {
  }

  /** First index of `c` in `s`, or None (`std::string_view::find`). */
  function Find(s: string, c: char): (r: Option<nat>)
    ensures r.None? <==> c !in s
    ensures r.Some? ==> r.value < |s| && s[r.value] == c && c !in s[..r.value]
  {
    if |s| == 0 then None
    else if s[0] == c then Some(0)
    else
      match Find(s[1..], c)
      case None => None
      case Some(k) =>
        assert s[..k + 1] == [s[0]] + s[1..][..k];
        Some(k + 1)
  }

  /** `Find` stops at the first occurrence. */
  lemma FindAt(s: string, c: char, k: nat)
    requires k < |s| && s[k] == c && c !in s[..k]
    ensures Find(s, c) == Some(k)
  {
    var r := Find(s, c);
    assert c in s by { assert s[k] == c; }
    assert forall j :: 0 <= j < k ==> s[..k][j] == s[j];
    assert forall j :: 0 <= j < r.value ==> s[..r.value][j] == s[j];
  }

  /** `t` occurs in `s` starting at index `k`. */
  predicate OccursAt(s: string, t: string, k: nat) {
    k + |t| <= |s| && s[k..k + |t|] == t
  }

  /** First index at or after `from` where `t` starts, or None. */
  function FindFrom(s: string, t: string, from: nat): (r: Option<nat>)
    decreases |s| - from
    ensures r.Some? ==> from <= r.value && OccursAt(s, t, r.value)
  {
    if from + |t| > |s| then None
    else if s[from..from + |t|] == t then Some(from)
    else FindFrom(s, t, from + 1)
  }

  /** `FindFrom` finds the first occurrence at or after `from`, and finds
      none only when there is none. */
  lemma {:induction false} FindFromIsFirst(s: string, t: string, from: nat)
    ensures var r := FindFrom(s, t, from);
      && (r.Some? ==> forall k :: from <= k < r.value ==> !OccursAt(s, t, k))
      && (r.None? ==> forall k :: from <= k ==> !OccursAt(s, t, k))
    decreases |s| - from
  {
    if from + |t| <= |s| && s[from..from + |t|] != t {
      FindFromIsFirst(s, t, from + 1);
    }
  }

  function TrimLeft(s: string): (r: string)
    ensures |r| <= |s| && r == s[|s| - |r|..]
    ensures |r| > 0 ==> !IsSpace(r[0])
    ensures forall i :: 0 <= i < |s| - |r| ==> IsSpace(s[i])
  {
    if |s| > 0 && IsSpace(s[0]) then
      var r := TrimLeft(s[1..]);
      assert s[1..][|s| - 1 - |r|..] == s[|s| - |r|..];
      assert forall i :: 1 <= i < |s| - |r| ==> s[i] == s[1..][i - 1];
      r
    else s
  }

  function TrimRight(s: string): (r: string)
    ensures |r| <= |s| && r == s[..|r|]
    ensures |r| > 0 ==> !IsSpace(r[|r| - 1])
    ensures forall i :: |r| <= i < |s| ==> IsSpace(s[i])
  {
    if |s| > 0 && IsSpace(s[|s| - 1]) then TrimRight(s[..|s| - 1]) else s
  }

  /** `r` is the slice of `s` at offset `a` and only blanks lie around it. */
  predicate BlankFramed(s: string, r: string, a: nat) {
    && a + |r| <= |s| && r == s[a..a + |r|]
    && (forall i :: 0 <= i < a ==> IsSpace(s[i]))
    && (forall i :: a + |r| <= i < |s| ==> IsSpace(s[i]))
  }

  /** `util::trim`: `s` without its leading and trailing blanks. */
  function Trim(s: string): (r: string)
    ensures |r| > 0 ==> !IsSpace(r[0]) && !IsSpace(r[|r| - 1])
  {
    TrimRight(TrimLeft(s))
  }

  /** Trimming keeps a slice of `s` and cuts away only blanks, so the
      result is the longest slice without surrounding blanks. */
  lemma TrimFrames(s: string)
    ensures exists a: nat :: BlankFramed(s, Trim(s), a)
  {
    var l := TrimLeft(s);
    assert BlankFramed(s, Trim(s), |s| - |l|);
  }

  /** `util::splitIgnoreEmpty`: the maximal separator-free pieces of `s`,
      empty pieces dropped. */
  function SplitIgnoreEmpty(s: string, sep: char): (r: seq<string>)
    decreases |s|
    ensures forall i :: 0 <= i < |r| ==> |r[i]| > 0 && sep !in r[i]
  {
    match Find(s, sep)
    case None => if |s| == 0 then [] else [s]
    case Some(k) => (if k == 0 then [] else [s[..k]]) + SplitIgnoreEmpty(s[k + 1..], sep)
  }

  /** A separator-free input is a single piece (or none when empty). */
  lemma SplitWithoutSeparator(s: string, sep: char)
    requires sep !in s
    ensures SplitIgnoreEmpty(s, sep) == if |s| == 0 then [] else [s]
  {
  }

  /** Splitting drops exactly the separators: the pieces, concatenated,
      are `s` with every separator removed. */
  lemma {:induction false} SplitKeepsText(s: string, sep: char)
    ensures Concat(SplitIgnoreEmpty(s, sep)) == Remove(s, sep)
    decreases |s|
  {
    match Find(s, sep)
    case None =>
      RemoveAbsent(s, sep);
    case Some(k) =>
      SplitKeepsText(s[k + 1..], sep);
      var head := if k == 0 then [] else [s[..k]];
      ConcatAppend(head, SplitIgnoreEmpty(s[k + 1..], sep));
      assert s == s[..k] + [sep] + s[k + 1..];
      RemoveAppend(s[..k] + [sep], s[k + 1..], sep);
      RemoveAppend(s[..k], [sep], sep);
      RemoveAbsent(s[..k], sep);
  }

  function Concat(ss: seq<string>): string {
    if |ss| == 0 then [] else ss[0] + Concat(ss[1..])
  }

  /** `s` with every occurrence of `c` removed (`std::remove` + resize). */
  function Remove(s: string, c: char): (r: string)
    ensures c !in r
    ensures |r| <= |s|
  {
    if |s| == 0 then [] else (if s[0] == c then [] else [s[0]]) + Remove(s[1..], c)
  }

  lemma {:induction false} RemoveAbsent(s: string, c: char)
    requires c !in s
    ensures Remove(s, c) == s
  {
    if |s| > 0 {
      RemoveAbsent(s[1..], c);
    }
  }

  lemma {:induction false} RemoveAppend(a: string, b: string, c: char)
    ensures Remove(a + b, c) == Remove(a, c) + Remove(b, c)
  {
    if |a| == 0 {
      assert a + b == b;
    } else {
      assert (a + b)[0] == a[0] && (a + b)[1..] == a[1..] + b;
      assert Remove(a + b, c) == (if a[0] == c then [] else [a[0]]) + Remove(a[1..] + b, c);
      RemoveAppend(a[1..], b, c);
    }
  }

  lemma {:induction false} ConcatAppend(a: seq<string>, b: seq<string>)
    ensures Concat(a + b) == Concat(a) + Concat(b)
  {
    if |a| == 0 {
      assert a + b == b;
    } else {
      assert (a + b)[1..] == a[1..] + b;
      ConcatAppend(a[1..], b);
    }
  }

  /** Removing a character twice is removing it once. */
  lemma {:induction false} RemoveIdempotent(s: string, c: char)
    ensures Remove(Remove(s, c), c) == Remove(s, c)
  {
    RemoveAbsent(Remove(s, c), c);
  }

  /** Removing a separator between two pieces free of it joins them. */
  lemma RemoveJoin(a: string, b: string, c: char)
    requires c !in a && c !in b
    ensures Remove(a + [c] + b, c) == a + b
  {
    var u := [c];
    assert Remove(u, c) == [] by { assert u[1..] == []; }
    RemoveAppend(a + u, b, c);
    RemoveAppend(a, u, c);
    RemoveAbsent(a, c);
    RemoveAbsent(b, c);
    assert Remove(a + u, c) == a;
  }

  /** Containment survives appending. */
  lemma {:induction false} ContainsAppend(s: string, x: string, t: string)
    requires Contains(s, t)
    ensures Contains(s + x, t)
    decreases |s|
  {
    if !(t <= s) {
      assert (s + x)[1..] == s[1..] + x;
      ContainsAppend(s[1..], x, t);
    }
  }

  /** A string is contained wherever it is spliced in. */
  lemma {:induction false} ContainsInfix(p: string, t: string, q: string)
    ensures Contains(p + t + q, t)
    decreases |p|
  {
    if |p| == 0 {
      assert p + t + q == t + q;
    } else {
      assert (p + t + q)[1..] == p[1..] + t + q;
      ContainsInfix(p[1..], t, q);
    }
  }

  lemma ToLowerAppend(a: string, b: string)
    ensures ToLower(a + b) == ToLower(a) + ToLower(b)
  {
  }

  /** Trimming leaves a string without blank ends as it is. */
  lemma TrimUnframed(s: string)
    requires |s| > 0 ==> !IsSpace(s[0]) && !IsSpace(s[|s| - 1])
    ensures Trim(s) == s
  {
  }

}
