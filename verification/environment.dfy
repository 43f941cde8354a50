/** The POSIX branch of `Environment.cpp`: shell-style expansion of
    environment variables in a string, and the list of preferred locales
    derived from `LANGUAGE`, `LC_ALL`, `LC_MESSAGES` and `LANG`. The
    process environment is a map from names to values; a missing key is an
    unset variable. */
module Environment {

  import opened Options
  import opened Text

  type Env = map<string, string>

  /** The characters a variable name is made of. */
  predicate IsNameChar(c: char) {
    c == '_' || IsDigit(c) || IsAlpha(c)
  }

  /** Length of the longest prefix of `s` made of name characters. */
  function NameLen(s: string): (n: nat)
    ensures n <= |s|
    ensures forall k :: 0 <= k < n ==> IsNameChar(s[k])
    ensures n == |s| || !IsNameChar(s[n])
  {
    if |s| > 0 && IsNameChar(s[0]) then 1 + NameLen(s[1..]) else 0
  }

  /** `$NAME` and `${NAME}` with nothing set expand to nothing. */
  function Lookup(env: Env, name: string): string {
    if name in env then env[name] else ""
  }

  /** `expandEnvironmentVariables`: `s` is the input not yet read,
      `depth` the number of open `${`, `skip` the number of those whose
      text is being suppressed. */
  function Run(s: string, depth: nat, skip: nat, env: Env): string
    decreases |s|, 1
  {
    if |s| == 0 then ""
    else if s[0] == '\\' then
      if |s| >= 2 then (if skip == 0 then [s[1]] else "") + Run(s[2..], depth, skip, env) else ""
    else if s[0] == '$' then Variable(s[1..], depth, skip, env)
    else if depth > 0 && s[0] == '}' then
      Run(s[1..], depth - 1, if skip > 0 then skip - 1 else 0, env)
    else
      (if skip == 0 then [s[0]] else "") + Run(s[1..], depth, skip, env)
  }

  /** The input just after a `$`: an optional `{`, then the name. */
  function Variable(t: string, depth: nat, skip: nat, env: Env): string
    decreases |t|, 3
  {
    var nested := |t| > 0 && t[0] == '{';
    var t' := if nested then t[1..] else t;
    var name := t'[..NameLen(t')];
    var u := t'[NameLen(t')..];
    if skip > 0 then
      if nested then Run(u, depth + 1, skip + 1, env) else Run(u, depth, skip, env)
    else if !nested then Lookup(env, name) + Run(u, depth, skip, env)
    else Operator(name, u, depth, skip, env)
  }

  /** The input just after `${NAME` when nothing is being skipped: an
      optional `:`, then `+`, `-` or anything else. */
  function Operator(name: string, u: string, depth: nat, skip: nat, env: Env): string
    decreases |u|, 2
  {
    var colon := |u| > 0 && u[0] == ':';
    var v := if colon then u[1..] else u;
    var empty := name !in env || (colon && env[name] == "");
    if |v| > 0 && v[0] == '+' then
      Run(v[1..], depth + 1, if empty then skip + 1 else skip, env)
    else
      (if empty then "" else env[name])
      + if |v| > 0 && v[0] == '-' then Run(v[1..], depth + 1, if empty then skip else skip + 1, env)
        else Run(v, depth + 1, skip + 1, env)
  }

  function Expand(s: string, env: Env): string {
    Run(s, 0, 0, env)
  }

  /** Text that is copied through as it stands (or dropped when skipped). */
  predicate Plain(w: string) {
    '$' !in w && '\\' !in w && '}' !in w
  }

  /** A run of plain text is copied unless it is being skipped. */
  lemma {:induction false} PlainRun(w: string, r: string, depth: nat, skip: nat, env: Env)
    requires Plain(w)
    ensures Run(w + r, depth, skip, env) == (if skip == 0 then w else "") + Run(r, depth, skip, env)
    decreases |w|
  {
    if |w| > 0 {
      var s := w + r;
      assert s[0] == w[0] && w[0] in w;
      assert s[1..] == w[1..] + r;
      PlainRun(w[1..], r, depth, skip, env);
      if skip == 0 {
        assert w == [w[0]] + w[1..];
      }
    } else {
      assert w + r == r;
    }
  }

  /** Input with neither `$` nor `\` is returned unchanged. */
  lemma {:induction false} ExpandLiteral(s: string, env: Env)
    requires '$' !in s && '\\' !in s
    ensures Expand(s, env) == s
    decreases |s|
  {
    if |s| > 0 {
      assert s[0] in s;
      assert '$' !in s[1..] && '\\' !in s[1..];
      ExpandLiteral(s[1..], env);
      assert s == [s[0]] + s[1..];
    }
  }

  /** Every character preceded by a backslash. */
  function Escape(t: string): (s: string)
    ensures |s| == 2 * |t|
  {
    if |t| == 0 then "" else ['\\', t[0]] + Escape(t[1..])
  }

  /** A backslash makes the next character literal: expanding an escaped
      string gives it back, whatever characters it holds. */
  lemma {:induction false} ExpandEscaped(t: string, r: string, depth: nat, env: Env)
    ensures Run(Escape(t) + r, depth, 0, env) == t + Run(r, depth, 0, env)
    decreases |t|
  {
    if |t| > 0 {
      var s := Escape(t) + r;
      assert Escape(t) == ['\\', t[0]] + Escape(t[1..]);
      assert s[0] == '\\' && s[1] == t[0];
      assert s[2..] == Escape(t[1..]) + r;
      ExpandEscaped(t[1..], r, depth, env);
      assert t == [t[0]] + t[1..];
    } else {
      assert Escape(t) + r == r;
    }
  }

  /** `Escape` is undone by expansion, and a lone backslash at the very end
      is dropped. */
  lemma EscapeRoundTrip(t: string, env: Env)
    ensures Expand(Escape(t), env) == t
    ensures Expand(Escape(t) + "\\", env) == t
  {
    ExpandEscaped(t, "", 0, env);
    assert Escape(t) + "" == Escape(t);
    ExpandEscaped(t, "\\", 0, env);
  }

  /** `name` is the whole name read at the start of `name + r`. */
  predicate WholeName(name: string, r: string) {
    (forall k :: 0 <= k < |name| ==> IsNameChar(name[k])) && (|r| == 0 || !IsNameChar(r[0]))
  }

  lemma {:induction false} NameLenOf(name: string, r: string)
    requires WholeName(name, r)
    ensures NameLen(name + r) == |name|
    decreases |name|
  {
    if |name| > 0 {
      assert (name + r)[1..] == name[1..] + r;
      NameLenOf(name[1..], r);
    } else {
      assert name + r == r;
    }
  }

  /** `$NAME` is replaced by the variable's value, or by nothing when it
      is unset; NAME is the longest run of name characters. */
  lemma ExpandDollar(name: string, r: string, env: Env)
    requires |name| > 0 && WholeName(name, r)
    ensures Expand("$" + name + r, env) == Lookup(env, name) + Expand(r, env)
  {
    var s := "$" + name + r;
    var t := name + r;
    assert s[0] == '$' && s[1..] == t;
    assert IsNameChar(t[0]);
    assert Run(s, 0, 0, env) == Variable(t, 0, 0, env);
    NameLenOf(name, r);
    assert t[..|name|] == name && t[|name|..] == r;
  }

  /** Reading `${NAME` at depth `depth` leaves the operator part. */
  lemma OpenBrace(name: string, u: string, depth: nat, skip: nat, env: Env)
    requires WholeName(name, u)
    ensures skip == 0 ==> Run("${" + name + u, depth, skip, env) == Operator(name, u, depth, skip, env)
    ensures skip > 0 ==> Run("${" + name + u, depth, skip, env) == Run(u, depth + 1, skip + 1, env)
  {
    var s := "${" + name + u;
    var t := name + u;
    assert s[0] == '$' && s[1..] == "{" + t && ("{" + t)[1..] == t;
    assert Run(s, depth, skip, env) == Variable("{" + t, depth, skip, env);
    NameLenOf(name, u);
    assert t[..|name|] == name && t[|name|..] == u;
  }

  /** A `}` closes one open `${` and ends one level of skipping. */
  lemma CloseBrace(r: string, depth: nat, skip: nat, env: Env)
    ensures Run("}" + r, depth + 1, skip, env) == Run(r, depth, if skip > 0 then skip - 1 else 0, env)
  {
    assert ("}" + r)[0] == '}' && ("}" + r)[1..] == r;
  }

  /** The operators of a braced form: `-` (use a default) and `+` (use
      an alternative), each optionally preceded by `:`. */
  datatype Op = Default(colon: bool) | Alternate(colon: bool)

  function OpText(op: Op): (t: string)
    ensures |t| > 0 && (|t| == 2 <==> op.colon) && !IsNameChar(t[0])
  {
    (if op.colon then ":" else "") + (if op.Default? then "-" else "+")
  }

  /** What `${NAME<op>w}` expands to, as shells define it. */
  function Braced(env: Env, name: string, op: Op, w: string): string {
    var isSet := name in env;
    var nonEmpty := isSet && env[name] != "";
    match op
    case Default(false) => if isSet then env[name] else w
    case Default(true) => if nonEmpty then env[name] else w
    case Alternate(false) => if isSet then w else ""
    case Alternate(true) => if nonEmpty then w else ""
  }

  /** The operator part `<op>w}` of a braced form. */
  lemma OperatorWord(name: string, op: Op, w: string, r: string, depth: nat, env: Env)
    requires Plain(w)
    ensures Operator(name, OpText(op) + (w + ("}" + r)), depth, 0, env) == Braced(env, name, op, w) + Run(r, depth, 0, env)
  {
    var tail := w + ("}" + r);
    var u := OpText(op) + tail;
    var v := if op.colon then u[1..] else u;
    assert u[0] == OpText(op)[0];
    assert v[0] == (if op.Default? then '-' else '+') && v[1..] == tail;
    var empty := name !in env || (op.colon && env[name] == "");
    var k: nat := if op.Alternate? then (if empty then 1 else 0) else (if empty then 0 else 1);
    PlainRun(w, "}" + r, depth + 1, k, env);
    CloseBrace(r, depth, k, env);
    var rest := Run(tail, depth + 1, k, env);
    assert rest == (if k == 0 then w else "") + Run(r, depth, 0, env);
    if op.Alternate? {
      assert Operator(name, u, depth, 0, env) == rest;
      assert Braced(env, name, op, w) == (if empty then "" else w);
    } else {
      assert Operator(name, u, depth, 0, env) == (if empty then "" else env[name]) + rest;
      assert Braced(env, name, op, w) == (if empty then w else env[name]);
    }
  }

  /** The braced forms at depth 0 with a plain word `w`:
      `${NAME-w}` gives w only when NAME is unset, `${NAME:-w}` also when
      it is empty, `${NAME+w}` gives w only when it is set, `${NAME:+w}`
      only when it is set and not empty, and the value itself is never
      shown by the two `+` forms. */
  lemma ExpandBraced(name: string, op: Op, w: string, r: string, env: Env)
    requires Plain(w) && WholeName(name, OpText(op))
    ensures Expand("${" + name + OpText(op) + w + "}" + r, env) == Braced(env, name, op, w) + Expand(r, env)
  {
    var u := OpText(op) + (w + ("}" + r));
    assert WholeName(name, u);
    assert "${" + name + OpText(op) + w + "}" + r == "${" + name + u;
    OpenBrace(name, u, 0, 0, env);
    OperatorWord(name, op, w, r, 0, env);
  }

  /** `${NAME}` gives the value, and any plain text before the closing
      brace that is not an operator is suppressed. */
  lemma ExpandBracedValue(name: string, w: string, r: string, env: Env)
    requires Plain(w) && WholeName(name, w + "}") && (|w| > 0 ==> w[0] !in {':', '+', '-'})
    ensures Expand("${" + name + w + "}" + r, env) == Lookup(env, name) + Expand(r, env)
  {
    var u := w + ("}" + r);
    assert u[0] != ':' && u[0] != '+' && u[0] != '-';
    assert WholeName(name, u);
    assert "${" + name + w + "}" + r == "${" + name + u;
    OpenBrace(name, u, 0, 0, env);
    assert Operator(name, u, 0, 0, env) == Lookup(env, name) + Run(u, 1, 1, env);
    PlainRun(w, "}" + r, 1, 1, env);
    CloseBrace(r, 0, 1, env);
  }

  /** Inside suppressed text a nested `${...}` raises both the depth and
      the skip count, and its closing brace lowers both again, so the
      braces balance and the outer closing brace still ends the outer
      form. */
  lemma NestedSkipped(name: string, w: string, r: string, depth: nat, skip: nat, env: Env)
    requires skip > 0 && Plain(w) && WholeName(name, w + "}")
    ensures Run("${" + name + w + "}" + r, depth, skip, env) == Run(r, depth, skip, env)
  {
    var u := w + "}" + r;
    assert WholeName(name, u);
    assert "${" + name + w + "}" + r == "${" + name + u;
    OpenBrace(name, u, depth, skip, env);
    assert u == w + ("}" + r);
    PlainRun(w, "}" + r, depth + 1, skip + 1, env);
    CloseBrace(r, depth, skip + 1, env);
  }

  /** A set-only form around a nested reference: `${A+${B}}` shows nothing
      when A is unset, whatever B is. */
  lemma SkippedReference(a: string, b: string, r: string, env: Env)
    requires |a| > 0 && |b| > 0 && WholeName(a, "+") && WholeName(b, "}")
    requires a !in env
    ensures Expand("${" + a + "+${" + b + "}}" + r, env) == Expand(r, env)
  {
    var inner := "${" + b + "" + "}" + ("}" + r);
    var u := "+" + inner;
    assert "${" + a + "+${" + b + "}}" + r == "${" + a + u;
    OpenBrace(a, u, 0, 0, env);
    assert u[0] == '+' && u[1..] == inner;
    assert Operator(a, u, 0, 0, env) == Run(inner, 1, 1, env);
    NestedSkipped(b, "", "}" + r, 1, 1, env);
    CloseBrace(r, 0, 1, env);
  }

  // ---------------------------------------------------------------------
  // getPreferredLocales

  /** Whether the `LANGUAGE` entries are deduplicated like every other
      entry (`Deduplicated`) or pushed as they come (`AsWritten`). */
  datatype LocaleMode = AsWritten | Deduplicated

  predicate NoDup<T(==)>(s: seq<T>) {
    forall i, j :: 0 <= i < j < |s| ==> s[i] != s[j]
  }

  /** Append `x` unless it is already listed. */
  function AppendNew(r: seq<string>, x: string): (q: seq<string>)
    ensures NoDup(r) ==> NoDup(q)
    ensures x in q && forall y :: y in q <==> y in r || y == x
    ensures |r| <= |q| <= |r| + 1 && q[..|r|] == r
  {
    if x in r then r else r + [x]
  }

  /** A `LANGUAGE` entry, lowercased with `_` turned into `-`. */
  function NormalizeLanguage(s: string): (r: string)
    ensures |r| == |s|
    ensures forall k :: 0 <= k < |r| ==> r[k] != '_' && !('A' <= r[k] <= 'Z')
    ensures forall k :: 0 <= k < |s| && s[k] == '_' ==> r[k] == '-'
    ensures forall k :: 0 <= k < |s| && s[k] != '_' ==> LowerChar(r[k]) == LowerChar(s[k])
    ensures forall k :: 0 <= k < |s| && s[k] != '_' && !IsAlpha(s[k]) ==> r[k] == s[k]
  {
    seq(|s|, k requires 0 <= k < |s| => if s[k] == '_' then '-' else LowerChar(s[k]))
  }

  /** Normalizing an entry twice is normalizing it once. */
  lemma NormalizeIdempotent(s: string)
    ensures NormalizeLanguage(NormalizeLanguage(s)) == NormalizeLanguage(s)
  {
    var n := NormalizeLanguage(s);
    var nn := NormalizeLanguage(n);
    forall k | 0 <= k < |s| ensures nn[k] == n[k] {
      assert n[k] != '_' && !('A' <= n[k] <= 'Z');
    }
  }

  /** What a normalized `LANGUAGE` entry may not contain. */
  predicate Normalized(e: string) {
    forall k :: 0 <= k < |e| ==> e[k] != '_' && e[k] != ':' && !('A' <= e[k] <= 'Z')
  }

  /** The `LANGUAGE` entries, split at `:` with empty ones dropped, in
      order; deduplicated only in the corrected mode. */
  function LanguageEntries(env: Env, mode: LocaleMode): (r: seq<string>)
    ensures forall y :: y in r ==> Normalized(y)
    ensures mode == Deduplicated ==> NoDup(r)
  {
    if "LANGUAGE" !in env then []
    else
      var parts := SplitIgnoreEmpty(env["LANGUAGE"], ':');
      var normalized := seq(|parts|, k requires 0 <= k < |parts| => NormalizeLanguage(parts[k]));
      assert forall y :: y in normalized ==> Normalized(y) by {
        forall y | y in normalized ensures Normalized(y) {
          var n :| 0 <= n < |normalized| && normalized[n] == y;
          assert ':' !in parts[n];
          forall k | 0 <= k < |y| ensures y[k] != ':' {
            assert parts[n][k] in parts[n];
          }
        }
      }
      if mode == AsWritten then normalized else AppendAll([], normalized)
  }

  function AppendAll(r: seq<string>, xs: seq<string>): (q: seq<string>)
    ensures NoDup(r) ==> NoDup(q)
    ensures forall y :: y in q <==> y in r || y in xs
    ensures |q| >= |r| && q[..|r|] == r
    decreases |xs|
  {
    if |xs| == 0 then r else AppendAll(AppendNew(r, xs[0]), xs[1..])
  }

  /** For entry `e`, every prefix that ends just before a character other
      than a letter or digit is added if absent, scanning from `j`. */
  function AddCutsOf(r: seq<string>, e: string, j: nat): (q: seq<string>)
    decreases |e| - j
    ensures NoDup(r) ==> NoDup(q)
    ensures |q| >= |r| && q[..|r|] == r
    ensures forall y :: y in q ==> y in r || exists k :: j <= k < |e| && !IsAlnum(e[k]) && y == e[..k]
    ensures forall k :: j <= k < |e| && !IsAlnum(e[k]) ==> e[..k] in q
  {
    if j >= |e| then r
    else if !IsAlnum(e[j]) then AddCutsOf(AppendNew(r, e[..j]), e, j + 1)
    else AddCutsOf(r, e, j + 1)
  }

  /** The second `LANGUAGE` loop: the cuts of each of the first `end`
      entries, from entry `i` on. */
  function AddCuts(r: seq<string>, i: nat, end: nat): (q: seq<string>)
    requires end <= |r|
    decreases end - i
    ensures NoDup(r) ==> NoDup(q)
    ensures |q| >= |r| && q[..|r|] == r
    ensures forall n, k :: i <= n < end && 0 <= k < |r[n]| && !IsAlnum(r[n][k]) ==> r[n][..k] in q
  {
    if i >= end then r
    else
      var r1 := AddCutsOf(r, r[i], 0);
      assert r1[..|r|] == r;
      var q := AddCuts(r1, i + 1, end);
      assert forall n :: 0 <= n < end ==> r1[n] == r[n];
      q
  }

  /** The scan of an `LC_*`/`LANG` value: lowercased, the first `_` or `-`
      becomes `-` and is remembered as the separator, and the value is cut
      at the first other character that is not a letter or digit. */
  function ScanLocale(b: string, sep: Option<nat>, i: nat): (r: (string, Option<nat>))
    requires i <= |b|
    requires sep.Some? ==> sep.value < i && b[sep.value] == '-'
    decreases |b| - i
    ensures i <= |r.0| <= |b| && r.0[..i] == b[..i]
    ensures r.1.Some? ==> r.1.value < |r.0| && r.0[r.1.value] == '-'
    ensures sep.Some? ==> r.1 == sep
    ensures forall k :: i <= k < |r.0| && Some(k) != r.1 ==> IsAlnum(r.0[k])
  {
    if i == |b| then (b, sep)
    else if IsAlnum(b[i]) then ScanLocale(b, sep, i + 1)
    else if sep.None? && (b[i] == '_' || b[i] == '-') then ScanLocale(b[i := '-'], Some(i), i + 1)
    else (b[..i], sep)
  }

  /** The locale an `LC_*`/`LANG` value names and the position of its
      separator, None for a value that is skipped: one whose scan is
      empty, `c` or `posix`, or starts with a separator. A trailing
      separator is dropped after that test, so `c_` names the locale `c`.
      The locale is letters and digits except for the separator, which is
      `-` and neither first nor last. */
  function VariableLocale(v: string): (r: Option<(string, Option<nat>)>)
    ensures r.Some? ==> |r.value.0| > 0
    ensures r.Some? && r.value.1.Some? ==>
      0 < r.value.1.value && r.value.1.value + 1 < |r.value.0| && r.value.0[r.value.1.value] == '-'
    ensures r.Some? ==> forall k :: 0 <= k < |r.value.0| && Some(k) != r.value.1 ==> IsAlnum(r.value.0[k])
  {
    var (buffer, sep) := ScanLocale(ToLower(v), None, 0);
    if |buffer| == 0 || buffer == "c" || buffer == "posix" || sep == Some(0) then None
    else if sep.Some? && sep.value + 1 == |buffer| then Some((buffer[..sep.value], None))
    else Some((buffer, sep))
  }

  /** One of `LC_ALL`, `LC_MESSAGES`, `LANG`: a skipped or unset variable
      adds nothing; otherwise the locale it names is listed afterwards,
      and when the locale was new its language part (the locale cut at the
      separator) is listed too. Nothing else is added. */
  function AddVariable(r: seq<string>, env: Env, name: string): (q: seq<string>)
    ensures NoDup(r) ==> NoDup(q)
    ensures |r| <= |q| <= |r| + 2 && q[..|r|] == r
    ensures name !in env || VariableLocale(env[name]).None? ==> q == r
    ensures name in env && VariableLocale(env[name]).Some? ==>
      && VariableLocale(env[name]).value.0 in q
      && (VariableLocale(env[name]).value.0 in r ==> q == r)
      && (VariableLocale(env[name]).value.0 !in r && VariableLocale(env[name]).value.1.Some? ==>
            VariableLocale(env[name]).value.0[..VariableLocale(env[name]).value.1.value] in q)
      && forall y :: y in q[|r|..] ==>
           y == VariableLocale(env[name]).value.0
           || (VariableLocale(env[name]).value.1.Some?
               && y == VariableLocale(env[name]).value.0[..VariableLocale(env[name]).value.1.value])
  {
    if name !in env then r
    else
      match VariableLocale(env[name])
      case None => r
      case Some((b, s)) =>
        if b in r then r
        else
          var r1 := r + [b];
          var q := if s.Some? then AppendNew(r1, b[..s.value]) else r1;
          assert q[|r|..] == [b] || q[|r|..] == [b, b[..s.value]];
          q
  }

  /** The three variables `LC_ALL`, `LC_MESSAGES`, `LANG`, in that order,
      each appended after the list built so far. */
  function AddVariables(r: seq<string>, env: Env): (q: seq<string>)
    ensures NoDup(r) ==> NoDup(q)
    ensures |q| >= |r| && q[..|r|] == r
    ensures forall y :: y in r ==> y in q
  {
    var r1 := AddVariable(r, env, "LC_ALL");
    var r2 := AddVariable(r1, env, "LC_MESSAGES");
    var q := AddVariable(r2, env, "LANG");
    assert q[..|r|] == r by {
      assert q[..|r|] == r2[..|r|] == r1[..|r|];
    }
    PrefixKeeps(r, q);
    q
  }

  /** Everything in a prefix of a list is in the list. */
  lemma PrefixKeeps(r: seq<string>, q: seq<string>)
    requires |q| >= |r| && q[..|r|] == r
    ensures forall y :: y in r ==> y in q
  {
    forall y | y in r ensures y in q {
      var m :| 0 <= m < |r| && r[m] == y;
      assert q[m] == r[m];
    }
  }

  /** `getPreferredLocales` (POSIX branch): the `LANGUAGE` entries come
      first and in order, every cut of them at a character other than a
      letter or digit is listed, and the list is free of duplicates
      whenever the `LANGUAGE` entries are. */
  function PreferredLocales(env: Env, mode: LocaleMode): (r: seq<string>)
    ensures var lang := LanguageEntries(env, mode); |r| >= |lang| && r[..|lang|] == lang
    ensures var lang := LanguageEntries(env, mode);
      forall n, k :: 0 <= n < |lang| && 0 <= k < |lang[n]| && !IsAlnum(lang[n][k]) ==> lang[n][..k] in r
    ensures NoDup(LanguageEntries(env, mode)) ==> NoDup(r)
  {
    var lang := LanguageEntries(env, mode);
    var r0 := AddCuts(lang, 0, |lang|);
    var r := AddVariables(r0, env);
    assert r[..|lang|] == r0[..|lang|];
    r
  }

  /** Entries distinct from each other and from the list are all
      appended, in order. */
  lemma {:induction false} AppendAllDistinct(r: seq<string>, xs: seq<string>)
    requires NoDup(r + xs)
    ensures AppendAll(r, xs) == r + xs
    decreases |xs|
  {
    if |xs| > 0 {
      assert forall m :: 0 <= m < |r| ==> r[m] != xs[0] by {
        forall m | 0 <= m < |r| ensures r[m] != xs[0] {
          assert (r + xs)[m] == r[m] && (r + xs)[|r|] == xs[0];
        }
      }
      assert r + [xs[0]] + xs[1..] == r + xs;
      AppendAllDistinct(r + [xs[0]], xs[1..]);
    } else {
      assert r + xs == r;
    }
  }

  /** The correction changes nothing when the `LANGUAGE` entries are
      already distinct. */
  lemma CorrectedAgreesWhenDistinct(env: Env)
    requires NoDup(LanguageEntries(env, AsWritten))
    ensures LanguageEntries(env, Deduplicated) == LanguageEntries(env, AsWritten)
    ensures PreferredLocales(env, Deduplicated) == PreferredLocales(env, AsWritten)
  {
    if "LANGUAGE" in env {
      var xs := LanguageEntries(env, AsWritten);
      assert [] + xs == xs;
      AppendAllDistinct([], xs);
    }
  }

  /** The list as written repeats a locale named twice in `LANGUAGE`:
      `LANGUAGE=de:de` yields `de` twice. */
  lemma AsWrittenRepeatsLanguage()
    ensures var r := PreferredLocales(map["LANGUAGE" := "de:de"], AsWritten);
      |r| >= 2 && r[0] == r[1] == "de" && !NoDup(r)
  {
    var s := "de:de";
    assert Find(s, ':') == Some(2);
    assert s[..2] == "de" && s[3..] == "de";
    assert Find("de", ':') == None;
    assert SplitIgnoreEmpty(s, ':') == ["de", "de"];
    assert NormalizeLanguage("de") == "de";
    var env := map["LANGUAGE" := s];
    assert LanguageEntries(env, AsWritten) == ["de", "de"];
  }

  /** The corrected list never repeats a locale. */
  lemma CorrectedHasNoDuplicates(env: Env)
    ensures NoDup(PreferredLocales(env, Deduplicated))
    ensures forall y :: y in LanguageEntries(env, AsWritten) <==> y in LanguageEntries(env, Deduplicated)
  {
    if "LANGUAGE" in env {
      var xs := LanguageEntries(env, AsWritten);
      assert LanguageEntries(env, Deduplicated) == AppendAll([], xs);
    }
  }

  /** `ScanLocale` passes over letters and digits. */
  lemma {:induction false} ScanAlnum(b: string, sep: Option<nat>, i: nat, j: nat)
    requires i <= j <= |b|
    requires sep.Some? ==> sep.value < i && b[sep.value] == '-'
    requires forall k :: i <= k < j ==> IsAlnum(b[k])
    ensures ScanLocale(b, sep, i) == ScanLocale(b, sep, j)
    decreases j - i
  {
    if i < j {
      ScanAlnum(b, sep, i + 1, j);
    }
  }

  /** A value that is empty or does not start with a letter or digit, and
      a value that reads `C` or `POSIX` in any case, adds nothing. */
  lemma IgnoredVariable(r: seq<string>, env: Env, name: string)
    requires name in env
    requires var v := env[name];
      || |v| == 0 || !IsAlnum(v[0])
      || ((forall k :: 0 <= k < |v| ==> IsAlnum(v[k])) && ToLower(v) in {"c", "posix"})
    ensures AddVariable(r, env, name) == r
  {
    var v := env[name];
    var b := ToLower(v);
    if |v| > 0 && !IsAlnum(v[0]) {
      assert !IsAlnum(b[0]);
    } else if |v| > 0 && forall k :: 0 <= k < |v| ==> IsAlnum(v[k]) {
      assert forall k :: 0 <= k < |b| ==> IsAlnum(b[k]) by {
        forall k | 0 <= k < |b| ensures IsAlnum(b[k]) {
          assert IsAlnum(v[k]);
        }
      }
      ScanAlnum(b, None, 0, |b|);
    }
  }

  predicate AllAlnum(s: string) {
    forall k :: 0 <= k < |s| ==> IsAlnum(s[k])
  }

  /** Scanning `ll_CC` or `ll-CC` followed by anything that is not a
      letter or digit gives `ll-cc` with the separator after `ll`. */
  lemma ScanLocaleName(v: string, lang: string, sep: char, country: string, rest: string)
    requires v == lang + [sep] + country + rest
    requires |lang| > 0 && |country| > 0 && AllAlnum(lang) && AllAlnum(country)
    requires sep == '_' || sep == '-'
    requires |rest| == 0 || !IsAlnum(rest[0])
    ensures ScanLocale(ToLower(v), None, 0) == (ToLower(lang) + "-" + ToLower(country), Some(|lang|))
  {
    var l, c, t := ToLower(lang), ToLower(country), ToLower(rest);
    assert ToLower(v) == l + [sep] + c + t by {
      ToLowerAppend(lang + [sep] + country, rest);
      ToLowerAppend(lang + [sep], country);
      ToLowerAppend(lang, [sep]);
    }
    LowerAlnum(lang);
    LowerAlnum(country);
    assert |t| > 0 ==> t[0] == LowerChar(rest[0]);
    ScanPieces(ToLower(v), l, sep, c, t);
  }

  /** `ScanLocale` on an already lowered `ll_cc` or `ll-cc` followed by
      anything that is not a letter or digit. */
  lemma ScanPieces(b: string, l: string, sep: char, c: string, t: string)
    requires b == l + [sep] + c + t
    requires AllAlnum(l) && AllAlnum(c)
    requires sep == '_' || sep == '-'
    requires |t| == 0 || !IsAlnum(t[0])
    ensures ScanLocale(b, None, 0) == (l + "-" + c, Some(|l|))
  {
    assert b == l + [sep] + (c + t);
    ScanLanguagePart(b, l, sep, c + t);
    var b' := l + "-" + c + t;
    assert l + "-" + (c + t) == b';
    ScanCountryPart(b', l + "-", c, t);
  }

  /** The language part is passed over and the separator becomes `-`. */
  lemma ScanLanguagePart(b: string, l: string, sep: char, rest: string)
    requires b == l + [sep] + rest
    requires AllAlnum(l)
    requires sep == '_' || sep == '-'
    ensures ScanLocale(b, None, 0) == ScanLocale(l + "-" + rest, Some(|l|), |l| + 1)
  {
    assert b[|l|] == sep;
    AlnumPiece(b, [], l, [sep] + rest);
    ScanAlnum(b, None, 0, |l|);
    assert b[|l| := '-'] == l + "-" + rest;
  }

  /** After the separator, the country part is passed over and the scan
      stops at the first other character. */
  lemma ScanCountryPart(b: string, pre: string, c: string, t: string)
    requires b == pre + c + t && |pre| > 0 && pre[|pre| - 1] == '-'
    requires AllAlnum(c)
    requires |t| == 0 || !IsAlnum(t[0])
    ensures ScanLocale(b, Some(|pre| - 1), |pre|) == (pre + c, Some(|pre| - 1))
  {
    var e := |pre| + |c|;
    AlnumPiece(b, pre, c, t);
    ScanAlnum(b, Some(|pre| - 1), |pre|, e);
    assert b[..e] == pre + c;
    if e < |b| {
      assert b[e] == t[0];
    } else {
      assert b[..e] == b;
    }
  }

  /** A piece of letters and digits, in place inside a string. */
  lemma AlnumPiece(b: string, pre: string, piece: string, post: string)
    requires b == pre + piece + post && AllAlnum(piece)
    ensures forall k :: |pre| <= k < |pre| + |piece| ==> IsAlnum(b[k])
  {
    forall k | |pre| <= k < |pre| + |piece| ensures IsAlnum(b[k]) {
      assert b[k] == piece[k - |pre|];
    }
  }

  /** Lowering keeps letters and digits letters and digits. */
  lemma LowerAlnum(s: string)
    requires AllAlnum(s)
    ensures AllAlnum(ToLower(s))
  {
  }

  /** A value `ll_CC` or `ll-CC`, possibly followed by an encoding or
      modifier such as `.UTF-8` or `@euro`, lists the locale `ll-cc`
      and, when that locale was new, its language `ll`. */
  lemma LocaleAndLanguage(r: seq<string>, env: Env, name: string, lang: string, sep: char, country: string, rest: string)
    requires name in env && env[name] == lang + [sep] + country + rest
    requires |lang| > 0 && |country| > 0 && AllAlnum(lang) && AllAlnum(country)
    requires sep == '_' || sep == '-'
    requires |rest| == 0 || !IsAlnum(rest[0])
    ensures var q := AddVariable(r, env, name);
      ToLower(lang) + "-" + ToLower(country) in q
      && (ToLower(lang) + "-" + ToLower(country) !in r ==> ToLower(lang) in q)
  {
    var locale := ToLower(lang) + "-" + ToLower(country);
    ScanLocaleName(env[name], lang, sep, country, rest);
    assert locale[|lang|] == '-' && |locale| > |lang| + 1;
    assert locale != "c" && locale != "posix";
    assert VariableLocale(env[name]) == Some((locale, Some(|lang|)));
    assert locale[..|lang|] == ToLower(lang);
  }

}
