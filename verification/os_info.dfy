/** The text parsers of `OS.cpp`: the distribution name assembled from
    `/etc/os-release`-style key/value text, and the memory totals read from
    `/proc/meminfo`. The files' contents are inputs; reading them is not
    modelled. */
module OsInfo {

  import opened Options
  import opened Text

  // ---------------------------------------------------------------------
  // parseDistributionName

  /** The value with one pair of surrounding quotes removed (the closing
      one only when the opening one was there) and then one trailing
      backslash. */
  function CleanValue(v: string): (r: string)
    ensures |r| <= |v|
  {
    DropBackslash(Unquote(v))
  }

  /** What cleaning keeps: the value with an opening quote dropped exactly
      when there is one, and a tail of at most a backslash and a closing
      quote cut off. The closing quote goes exactly when the opening one
      was dropped and the value ends with another quote; the backslash
      goes exactly when one precedes that tail. */
  lemma CleanValueShape(v: string)
    ensures var r := CleanValue(v);
      && (|v| > 0 && v[0] == '"' ==> 1 + |r| <= |v| && r == v[1..1 + |r|])
      && (!(|v| > 0 && v[0] == '"') ==> r == v[..|r|])
      && (|v| > 0 && v[0] == '"' ==>
            (if |v| >= 2 && v[|v| - 1] == '"' then v[1 + |r|..] in {"\"", "\\\""} else v[1 + |r|..] in {"", "\\"}))
      && (!(|v| > 0 && v[0] == '"') ==> v[|r|..] in {"", "\\"})
      && ((if |v| > 0 && v[0] == '"' then v[1 + |r|..] else v[|r|..]) in {"", "\""} ==> |r| == 0 || r[|r| - 1] != '\\')
  {
    var u := Unquote(v);
    var r := DropBackslash(u);
    var a := if |v| > 0 && v[0] == '"' then 1 else 0;
    assert v[a..a + |r|] == r by { assert v[a..a + |r|] == v[a..a + |u|][..|r|]; }
    var t := v[a + |u|..];
    assert v[a + |r|..] == u[|r|..] + t;
    if u[|r|..] == "\\" {
      if t == "\"" {
        assert v[a + |r|..] == "\\\"";
      } else {
        assert v[a + |r|..] == "\\";
      }
    } else {
      assert v[a + |r|..] == t;
    }
  }

  /** An opening quote dropped, and then a closing one when the rest ends
      with a quote. */
  function Unquote(v: string): (u: string)
    ensures |v| > 0 && v[0] == '"' ==>
      && 1 + |u| <= |v| && u == v[1..1 + |u|]
      && v[1 + |u|..] == (if |v| >= 2 && v[|v| - 1] == '"' then "\"" else "")
    ensures !(|v| > 0 && v[0] == '"') ==> u == v
  {
    if |v| > 0 && v[0] == '"' then
      var w := v[1..];
      if |w| > 0 && w[|w| - 1] == '"' then
        assert v[1 + |w| - 1..] == "\"";
        w[..|w| - 1]
      else w
    else v
  }

  /** One trailing backslash dropped. */
  function DropBackslash(u: string): (r: string)
    ensures |r| <= |u| && r == u[..|r|]
    ensures u[|r|..] == (if |u| > 0 && u[|u| - 1] == '\\' then "\\" else "")
  {
    if |u| > 0 && u[|u| - 1] == '\\' then
      assert u[|u| - 1..] == "\\";
      u[..|u| - 1]
    else u
  }

  /** One line: None for comments, lines without a separator or with the
      separator first, and lines whose key or value is empty or whose value
      is `n/a`; otherwise the trimmed key and the cleaned value. */
  function ParseLine(line: string, sep: char): (r: Option<(string, string)>)
    requires |line| > 0
    ensures r.Some? ==> |r.value.0| > 0 && |r.value.1| > 0 && r.value.1 != "n/a"
    ensures line[0] == '#' || sep !in line || line[0] == sep ==> r.None?
  {
    if line[0] == '#' then None
    else match Find(line, sep)
      case None => None
      case Some(pos) =>
        if pos == 0 then None
        else
          var key := Trim(line[..pos]);
          var value := CleanValue(Trim(line[pos + 1..]));
          if |key| == 0 || |value| == 0 || value == "n/a" then None else Some((key, value))
  }

  /** A string that trimming leaves alone. */
  predicate Unframed(s: string) {
    |s| > 0 && !IsSpace(s[0]) && !IsSpace(s[|s| - 1])
  }

  /** A line `KEY<sep>rest` with a key trimming leaves alone parses to
      that key and the cleaned, trimmed rest. */
  lemma ParseLineSplits(key: string, sep: char, rest: string)
    requires Unframed(key) && key[0] != '#' && sep !in key
    ensures var value := CleanValue(Trim(rest));
      ParseLine(key + [sep] + rest, sep) == if |value| == 0 || value == "n/a" then None else Some((key, value))
  {
    var line := key + [sep] + rest;
    assert line[..|key|] == key && line[|key| + 1..] == rest;
    assert line[|key|] == sep && line[0] == key[0];
    FindAt(line, sep, |key|);
    TrimUnframed(key);
    assert ParseLine(line, sep) == (var value := CleanValue(Trim(rest));
      if |key| == 0 || |value| == 0 || value == "n/a" then None else Some((key, value)));
  }

  /** `KEY=VALUE` with an unquoted value reads back as the pair; a trailing
      quote without an opening one is kept. */
  lemma ParseLinePlain(key: string, sep: char, v: string)
    requires Unframed(key) && key[0] != '#' && sep !in key
    requires Unframed(v) && v[0] != '"' && v[|v| - 1] != '\\' && v != "n/a"
    ensures ParseLine(key + [sep] + v, sep) == Some((key, v))
  {
    ParseLineSplits(key, sep, v);
    TrimUnframed(v);
  }

  /** Quotes around a value are removed. */
  lemma CleanQuoted(v: string)
    requires |v| > 0 && v[|v| - 1] != '\\'
    ensures CleanValue("\"" + v + "\"") == v
  {
    var q := "\"" + v + "\"";
    assert q[1..] == v + "\"" && (v + "\"")[..|v|] == v;
  }

  /** `KEY="VALUE"` reads back as the pair with the quotes removed. */
  lemma ParseLineQuoted(key: string, sep: char, v: string)
    requires Unframed(key) && key[0] != '#' && sep !in key
    requires |v| > 0 && v[|v| - 1] != '\\' && v != "n/a"
    ensures ParseLine(key + [sep] + ("\"" + v + "\""), sep) == Some((key, v))
  {
    var q := "\"" + v + "\"";
    ParseLineSplits(key, sep, q);
    TrimUnframed(q);
    CleanQuoted(v);
  }

  /** The name a key is matched by: a leading `(` only asks for
      parentheses in the output. */
  function KeyName(k: string): (r: string)
    ensures r == k || (|k| > 0 && k[0] == '(' && r == k[1..])
  {
    if |k| > 0 && k[0] == '(' then k[1..] else k
  }

  /** The value goes to the first still-empty slot, from `i` on, whose key
      name is `key`. */
  function Fill(values: seq<string>, keys: seq<string>, key: string, value: string, i: nat): (r: seq<string>)
    requires |values| == |keys|
    decreases |values| - i
    ensures |r| == |values|
    ensures forall j :: 0 <= j < |r| && r[j] != values[j] ==>
      i <= j && values[j] == "" && KeyName(keys[j]) == key && r[j] == value
  {
    if i >= |values| then values
    else if values[i] == "" && KeyName(keys[i]) == key then values[i := value]
    else Fill(values, keys, key, value, i + 1)
  }

  /** Each line of the data parsed on its own. */
  function ParseLines(lines: seq<string>, sep: char): (ps: seq<Option<(string, string)>>)
    requires forall n :: 0 <= n < |lines| ==> |lines[n]| > 0
    ensures |ps| == |lines| && FilledValues(ps)
    ensures forall n :: 0 <= n < |lines| ==> ps[n] == ParseLine(lines[n], sep)
  {
    seq(|lines|, n requires 0 <= n < |lines| => ParseLine(lines[n], sep))
  }

  /** Every parsed pair carries a non-empty value. */
  predicate FilledValues(ps: seq<Option<(string, string)>>) {
    forall n :: 0 <= n < |ps| && ps[n].Some? ==> ps[n].value.1 != ""
  }

  /** The first loop, over the parsed lines: every line fills at most one
      slot. */
  function Collect(ps: seq<Option<(string, string)>>, keys: seq<string>, values: seq<string>): (r: seq<string>)
    requires |values| == |keys|
    ensures |r| == |values|
  {
    if |ps| == 0 then values
    else
      var next := match ps[0]
        case None => values
        case Some((key, value)) => Fill(values, keys, key, value, 0);
      Collect(ps[1..], keys, next)
  }

  /** The pairs the parsed lines yield, in order. */
  function Pairs(ps: seq<Option<(string, string)>>): seq<(string, string)> {
    if |ps| == 0 then []
    else (match ps[0] case None => [] case Some(p) => [p]) + Pairs(ps[1..])
  }

  /** The value of the first pair with key `k`, or the empty string. */
  function FirstValue(ps: seq<(string, string)>, k: string): string {
    if |ps| == 0 then "" else if ps[0].0 == k then ps[0].1 else FirstValue(ps[1..], k)
  }

  predicate DistinctNames(keys: seq<string>) {
    forall i, j :: 0 <= i < j < |keys| ==> KeyName(keys[i]) != KeyName(keys[j])
  }

  /** With distinct key names, a slot holds exactly the value of the first
      line with its key, and a filled slot is never overwritten. */
  lemma {:induction false} CollectFirstValue(ps: seq<Option<(string, string)>>, keys: seq<string>, values: seq<string>, i: nat)
    requires |values| == |keys| && DistinctNames(keys) && i < |keys| && FilledValues(ps)
    ensures Collect(ps, keys, values)[i] ==
      if values[i] != "" then values[i] else FirstValue(Pairs(ps), KeyName(keys[i]))
    decreases |ps|
  {
    if |ps| > 0 {
      var pairs := Pairs(ps);
      match ps[0]
      case None =>
        assert pairs == Pairs(ps[1..]);
        FilledTail(ps);
        CollectFirstValue(ps[1..], keys, values, i);
      case Some((key, value)) =>
        var next := Fill(values, keys, key, value, 0);
        assert pairs == [(key, value)] + Pairs(ps[1..]);
        assert pairs[0] == (key, value) && pairs[1..] == Pairs(ps[1..]);
        FillTakesSlot(values, keys, key, value, i);
        assert ps[0].Some? && value != "";
        FilledTail(ps);
        CollectFirstValue(ps[1..], keys, next, i);
    }
  }

  lemma FilledTail(ps: seq<Option<(string, string)>>)
    requires |ps| > 0 && FilledValues(ps)
    ensures FilledValues(ps[1..])
  {
    assert forall n :: 0 <= n < |ps| - 1 ==> ps[1..][n] == ps[n + 1];
  }

  /** With distinct key names, `Fill` sets slot `i` exactly when it was
      empty and its key name matches. */
  lemma {:induction false} FillTakesSlot(values: seq<string>, keys: seq<string>, key: string, value: string, i: nat)
    requires |values| == |keys| && DistinctNames(keys) && i < |keys|
    ensures Fill(values, keys, key, value, 0)[i] ==
      if values[i] == "" && KeyName(keys[i]) == key then value else values[i]
  {
    FillFrom(values, keys, key, value, 0, i);
  }

  lemma {:induction false} FillFrom(values: seq<string>, keys: seq<string>, key: string, value: string, from: nat, i: nat)
    requires |values| == |keys| && DistinctNames(keys) && from <= i < |keys|
    ensures Fill(values, keys, key, value, from)[i] ==
      if values[i] == "" && KeyName(keys[i]) == key then value else values[i]
    decreases i - from
  {
    if from < i {
      if values[from] == "" && KeyName(keys[from]) == key {
        assert KeyName(keys[from]) != KeyName(keys[i]);
      } else {
        FillFrom(values, keys, key, value, from + 1, i);
      }
    }
  }

  /** What the name grows by when a value is added. */
  function Added(name: string, key: string, v: string): (r: string)
    ensures name <= r
  {
    if name == "" then v
    else if |key| > 0 && key[0] == '(' then name + " (" + v + ")"
    else name + " " + v
  }

  /** One round of the second loop: a filled value the name does not
      already contain (ignoring case) is added. */
  function Step(values: seq<string>, keys: seq<string>, i: nat, name: string): (r: string)
    requires |values| == |keys| && i < |values|
    ensures name <= r
  {
    if values[i] == "" || IContains(name, values[i]) then name else Added(name, keys[i], values[i])
  }

  /** The second loop: filled values in key order. */
  function Assemble(values: seq<string>, keys: seq<string>, i: nat, name: string): (r: string)
    requires |values| == |keys|
    decreases |values| - i
    ensures name <= r
  {
    if i >= |values| then name else Assemble(values, keys, i + 1, Step(values, keys, i, name))
  }

  /** The value slots after reading every line of `data`. */
  function Slots(data: string, sep: char, keys: seq<string>): (r: seq<string>)
    ensures |r| == |keys|
  {
    Collect(ParseLines(SplitIgnoreEmpty(data, '\n'), sep), keys, seq(|keys|, _ => ""))
  }

  /** `parseDistributionName`. */
  function DistributionName(data: string, sep: char, keys: seq<string>): string {
    Assemble(Slots(data, sep, keys), keys, 0, "")
  }

  /** With distinct key names, each slot holds the value of the first line
      carrying its key, or stays empty. */
  lemma SlotsHoldFirstValues(data: string, sep: char, keys: seq<string>, i: nat)
    requires DistinctNames(keys) && i < |keys|
    ensures Slots(data, sep, keys)[i] == FirstValue(Pairs(ParseLines(SplitIgnoreEmpty(data, '\n'), sep)), KeyName(keys[i]))
  {
    CollectFirstValue(ParseLines(SplitIgnoreEmpty(data, '\n'), sep), keys, seq(|keys|, _ => ""), i);
  }

  lemma IContainsAppend(s: string, x: string, t: string)
    requires IContains(s, t)
    ensures IContains(s + x, t)
  {
    ToLowerAppend(s, x);
    ContainsAppend(ToLower(s), ToLower(x), ToLower(t));
  }

  /** An added value is in the name. */
  lemma AddedContains(name: string, key: string, v: string)
    ensures IContains(Added(name, key, v), v)
  {
    var r := Added(name, key, v);
    var (p, q) := if name == "" then ("", "") else if |key| > 0 && key[0] == '(' then (name + " (", ")") else (name + " ", "");
    assert r == p + v + q;
    ToLowerAppend(p + v, q);
    ToLowerAppend(p, v);
    ContainsInfix(ToLower(p), ToLower(v), ToLower(q));
  }

  /** After its round, a filled value is in the name: it was either
      added or already there. */
  lemma StepCovers(values: seq<string>, keys: seq<string>, i: nat, name: string)
    requires |values| == |keys| && i < |values| && values[i] != ""
    ensures IContains(Step(values, keys, i, name), values[i])
  {
    if !IContains(name, values[i]) {
      AddedContains(name, keys[i], values[i]);
    }
  }

  /** A round changes the name exactly when its value is filled and not
      yet in the name, ignoring case; the name then grows by a space and
      the value, parenthesised for a `(` key, or becomes the value when it
      was empty. */
  lemma StepChangesExactlyNew(values: seq<string>, keys: seq<string>, i: nat, name: string)
    requires |values| == |keys| && i < |values|
    ensures var r := Step(values, keys, i, name);
      && (r != name <==> values[i] != "" && !IContains(name, values[i]))
      && (r != name && name != "" ==> r[|name|] == ' ')
      && (r != name && name == "" ==> r == values[i])
  {
    if values[i] != "" && !IContains(name, values[i]) && name != "" {
      var r := Step(values, keys, i, name);
      assert |r| > |name|;
    }
  }

  /** What the name contains stays in it: the loop only appends. */
  lemma AssembleKeeps(values: seq<string>, keys: seq<string>, i: nat, name: string, t: string)
    requires |values| == |keys| && IContains(name, t)
    ensures IContains(Assemble(values, keys, i, name), t)
  {
    var r := Assemble(values, keys, i, name);
    assert r == name + r[|name|..];
    IContainsAppend(name, r[|name|..], t);
  }

  /** Every filled value ends up in the name, ignoring case. */
  lemma {:induction false} AssembleCovers(values: seq<string>, keys: seq<string>, i: nat, name: string, j: nat)
    requires |values| == |keys| && i <= j < |values| && values[j] != ""
    ensures IContains(Assemble(values, keys, i, name), values[j])
    decreases j - i
  {
    var next := Step(values, keys, i, name);
    assert Assemble(values, keys, i, name) == Assemble(values, keys, i + 1, next);
    if i < j {
      AssembleCovers(values, keys, i + 1, next, j);
    } else {
      StepCovers(values, keys, i, name);
      AssembleKeeps(values, keys, i + 1, next, values[j]);
    }
  }

  /** The name is empty exactly when no slot was filled. */
  lemma {:induction false} AssembleEmpty(values: seq<string>, keys: seq<string>, i: nat, name: string)
    requires |values| == |keys|
    ensures Assemble(values, keys, i, name) == "" <==> name == "" && forall j :: i <= j < |values| ==> values[j] == ""
    decreases |values| - i
  {
    if i < |values| {
      if values[i] != "" && name == "" {
        NotContainedInEmpty(values[i]);
      }
      if values[i] == "" || IContains(name, values[i]) {
        AssembleEmpty(values, keys, i + 1, name);
      } else {
        AssembleEmpty(values, keys, i + 1, Added(name, keys[i], values[i]));
      }
    }
  }

  /** The first filled value starts the name, without parentheses. */
  lemma {:induction false} AssembleStartsWithFirst(values: seq<string>, keys: seq<string>, i: nat, k: nat)
    requires |values| == |keys| && i <= k < |values|
    requires values[k] != "" && forall j :: i <= j < k ==> values[j] == ""
    ensures values[k] <= Assemble(values, keys, i, "")
    decreases k - i
  {
    if i < k {
      AssembleStartsWithFirst(values, keys, i + 1, k);
    } else {
      NotContainedInEmpty(values[k]);
    }
  }

  /** The distribution name lists every value found for a key and is empty
      exactly when no key was found. */
  lemma DistributionNameCovers(data: string, sep: char, keys: seq<string>)
    ensures var values := Slots(data, sep, keys);
      && (DistributionName(data, sep, keys) == "" <==> forall j :: 0 <= j < |values| ==> values[j] == "")
      && forall j :: 0 <= j < |values| && values[j] != "" ==> IContains(DistributionName(data, sep, keys), values[j])
  {
    var values := Slots(data, sep, keys);
    AssembleEmpty(values, keys, 0, "");
    forall j | 0 <= j < |values| && values[j] != ""
      ensures IContains(Assemble(values, keys, 0, ""), values[j])
    {
      AssembleCovers(values, keys, 0, "", j);
    }
  }

  // ---------------------------------------------------------------------
  // getMemoryInfo (Linux)

  const U64Mod: nat := 0x1_0000_0000_0000_0000
  const U64Max: nat := U64Mod - 1

  predicate AllDigits(s: string) {
    forall k :: 0 <= k < |s| ==> IsDigit(s[k])
  }

  function DigitValue(c: char): nat
    requires IsDigit(c)
  {
    c as nat - '0' as nat
  }

  /** The number a string of decimal digits denotes. */
  function DecimalValue(s: string): nat
    requires AllDigits(s)
  {
    if |s| == 0 then 0 else DecimalValue(s[..|s| - 1]) * 10 + DigitValue(s[|s| - 1])
  }

  /** The shortest decimal spelling of `n`. */
  function Decimal(n: nat): (s: string)
    ensures |s| > 0 && AllDigits(s)
  {
    if n < 10 then ['0' + n as char] else Decimal(n / 10) + ['0' + (n % 10) as char]
  }

  lemma {:induction false} DecimalRoundTrip(n: nat)
    ensures DecimalValue(Decimal(n)) == n
  {
    if n >= 10 {
      var s := Decimal(n);
      assert s[..|s| - 1] == Decimal(n / 10);
      DecimalRoundTrip(n / 10);
    }
  }

  /** `boost::lexical_cast<u64>`: an optional sign and at least one digit,
      rejected above 2^64 - 1; a minus sign wraps modulo 2^64. */
  function ParseU64(s: string): (r: Option<nat>)
    ensures r.Some? ==> r.value < U64Mod
  {
    var negative := |s| > 0 && s[0] == '-';
    var digits := if |s| > 0 && (s[0] == '+' || s[0] == '-') then s[1..] else s;
    if |digits| == 0 || !AllDigits(digits) || DecimalValue(digits) > U64Max then None
    else if negative then Some((U64Mod - DecimalValue(digits)) % U64Mod)
    else Some(DecimalValue(digits))
  }

  /** A decimal number up to 2^64 - 1 parses to itself. */
  lemma ParseDecimal(n: nat)
    requires n <= U64Max
    ensures ParseU64(Decimal(n)) == Some(n)
  {
    DecimalRoundTrip(n);
    ParseDigits(Decimal(n));
  }

  /** One `/proc/meminfo` line `Label: N kB`: the trimmed field and N in
      bytes, wrapped to 64 bits; None when the colon, the `kB` after it or
      the number is missing. */
  function ParseMemLine(line: string): (r: Option<(string, nat)>)
    ensures r.Some? ==> r.value.1 < U64Mod && r.value.1 % 1024 == 0
  {
    match Find(line, ':')
    case None => None
    case Some(sep) => AfterColon(line, sep)
  }

  /** The rest of `parseMemLine` once the colon is at `sep`. */
  function AfterColon(line: string, sep: nat): (r: Option<(string, nat)>)
    requires sep < |line|
    ensures r.Some? ==> r.value.1 < U64Mod && r.value.1 % 1024 == 0
  {
    match FindFrom(line, "kB", sep + 1)
    case None => None
    case Some(end) => MemReading(Trim(line[..sep]), Trim(line[sep + 1..end]))
  }

  /** The field and the number of kilobytes in bytes, wrapped to 64 bits;
      None when the number does not parse. */
  function MemReading(field: string, number: string): (r: Option<(string, nat)>)
    ensures r.Some? ==> r.value.1 < U64Mod && r.value.1 % 1024 == 0
  {
    match ParseU64(number)
    case None => None
    case Some(n) =>
      assert (n * 1024) % U64Mod % 1024 == 0 by { ScaledStaysAligned(n); }
      Some((field, (n * 1024) % U64Mod))
  }

  lemma ScaledStaysAligned(n: nat)
    ensures (n * 1024) % U64Mod % 1024 == 0
  {
    var q := (n * 1024) / U64Mod;
    assert n * 1024 == q * U64Mod + (n * 1024) % U64Mod;
    assert U64Mod == 1024 * 0x40_0000_0000_0000;
    assert (n * 1024) % U64Mod == 1024 * (n - q * 0x40_0000_0000_0000);
  }

  /** `FindFrom` reaches an occurrence when no earlier position starts
      with the pattern's first character. */
  lemma {:induction false} FindFromReaches(s: string, t: string, from: nat, at: nat)
    requires |t| > 0 && from <= at && OccursAt(s, t, at)
    requires forall k :: from <= k < at ==> s[k] != t[0]
    ensures FindFrom(s, t, from) == Some(at)
    decreases at - from
  {
    if from < at {
      assert s[from..from + |t|][0] == s[from];
      FindFromReaches(s, t, from + 1, at);
    }
  }

  /** In `pre + " " + d + " kB"` the unit starts at `end`, and nothing
      from `start`, the end of `pre`, up to it is a `k`. */
  lemma UnitAfterNumber(line: string, pre: string, d: string, start: nat, end: nat)
    requires 'k' !in d && line == pre + " " + d + " kB"
    requires start == |pre| && end == start + |d| + 2
    ensures OccursAt(line, "kB", end)
    ensures forall k :: start <= k < end ==> line[k] != 'k'
  {
    var tail := " " + d + " kB";
    assert line == pre + tail;
    assert tail[|d| + 2..] == "kB";
    assert line[end..end + 2] == tail[|d| + 2..];
    assert forall k :: 0 <= k < |d| + 2 ==> tail[k] != 'k' by {
      assert forall k :: 1 <= k < |d| + 1 ==> tail[k] == d[k - 1];
    }
    assert forall k :: start <= k < end ==> line[k] == tail[k - start];
  }

  /** Where the pieces of a line `Field: N kB` are found: the colon at
      `sep`, the number from `start` and the unit at `end`. */
  lemma MemLineLayout(line: string, field: string, d: string) returns (sep: nat, start: nat, end: nat)
    requires Unframed(field) && ':' !in field && |d| > 0 && AllDigits(d)
    requires line == field + ": " + d + " kB"
    ensures start == sep + 1 && sep == |field| && end == start + |d| + 2
    ensures Find(line, ':') == Some(sep)
    ensures FindFrom(line, "kB", start) == Some(end)
    ensures Trim(line[..sep]) == field && Trim(line[start..end]) == d
  {
    sep := |field|;
    start := sep + 1;
    end := start + |d| + 2;
    assert line[sep] == ':' && line[..sep] == field;
    FindAt(line, ':', sep);
    TrimUnframed(field);
    MemLineUnit(line, field, d, start, end);
    MemLineNumber(line, field, d, start, end);
  }

  lemma MemLineUnit(line: string, field: string, d: string, start: nat, end: nat)
    requires AllDigits(d) && line == field + ": " + d + " kB"
    requires start == |field| + 1 && end == start + |d| + 2
    ensures FindFrom(line, "kB", start) == Some(end)
  {
    var pre := field + ":";
    assert line == pre + " " + d + " kB";
    assert 'k' !in d by {
      assert forall k :: 0 <= k < |d| ==> IsDigit(d[k]);
    }
    UnitAfterNumber(line, pre, d, start, end);
    FindFromReaches(line, "kB", start, end);
  }

  lemma MemLineNumber(line: string, field: string, d: string, start: nat, end: nat)
    requires |d| > 0 && AllDigits(d) && line == field + ": " + d + " kB"
    requires start == |field| + 1 && end == start + |d| + 2
    ensures Trim(line[start..end]) == d
  {
    var tail := " " + d + " kB";
    assert line == (field + ":") + tail;
    assert line[start..end] == tail[..|d| + 2];
    assert tail[..|d| + 2] == " " + d + " ";
    TrimFramedDigits(d);
  }

  lemma ParseDigits(d: string)
    requires |d| > 0 && AllDigits(d) && DecimalValue(d) <= U64Max
    ensures ParseU64(d) == Some(DecimalValue(d))
  {
    assert d[0] != '+' && d[0] != '-';
  }

  /** `parseMemLine` once the colon and the unit after it are found:
      the trimmed field and the number around them. */
  lemma ParseMemLineAt(line: string, sep: nat, start: nat, end: nat, field: string, number: string, n: nat)
    requires start == sep + 1 && Find(line, ':') == Some(sep)
    requires FindFrom(line, "kB", start) == Some(end)
    requires Trim(line[..sep]) == field && Trim(line[start..end]) == number
    requires ParseU64(number) == Some(n)
    ensures ParseMemLine(line) == Some((field, (n * 1024) % U64Mod))
  {
  }

  /** The kernel's spelling of any 64-bit count of kilobytes reads back
      as that count in bytes, wrapped to 64 bits. */
  lemma MemLineRoundTrip(field: string, n: nat)
    requires Unframed(field) && ':' !in field && n <= U64Max
    ensures ParseMemLine(field + ": " + Decimal(n) + " kB") == Some((field, (n * 1024) % U64Mod))
  {
    var d := Decimal(n);
    var line := field + ": " + d + " kB";
    var sep, start, end := MemLineLayout(line, field, d);
    ParseDecimal(n);
    ParseMemLineAt(line, sep, start, end, field, d, n);
  }

  lemma TrimFramedDigits(d: string)
    requires |d| > 0 && AllDigits(d)
    ensures Trim(" " + d + " ") == d
  {
    var s := " " + d + " ";
    assert !IsSpace(d[0]) && !IsSpace(d[|d| - 1]);
    assert s[1..] == d + " ";
    assert TrimLeft(s) == TrimLeft(s[1..]);
    assert TrimLeft(d + " ") == d + " ";
    assert (d + " ")[..|d|] == d;
    assert TrimRight(d + " ") == TrimRight(d);
  }

  datatype MemoryInfo = MemoryInfo(total: nat, available: nat)

  /** The four counters, `U64Max` meaning not read yet. */
  datatype MemState = MemState(total: nat, free: nat, buffers: nat, cached: nat)

  const Unread := MemState(U64Max, U64Max, U64Max, U64Max)

  predicate IsMemField(l: string) {
    l == "MemTotal" || l == "MemFree" || l == "Buffers" || l == "Cached"
  }

  function Record(st: MemState, field: string, n: nat): MemState {
    if field == "MemTotal" then st.(total := n)
    else if field == "MemFree" then st.(free := n)
    else if field == "Buffers" then st.(buffers := n)
    else if field == "Cached" then st.(cached := n)
    else st
  }

  predicate AllRead(st: MemState) {
    st.total != U64Max && st.free != U64Max && st.buffers != U64Max && st.cached != U64Max
  }

  /** Total memory and free + buffers + cached, the sum wrapped to 64 bits. */
  function Report(st: MemState): MemoryInfo {
    MemoryInfo(st.total, (st.free + st.buffers + st.cached) % U64Mod)
  }

  /** Each line of the file parsed on its own. */
  function ParseMemLines(lines: seq<string>): (ps: seq<Option<(string, nat)>>)
    ensures |ps| == |lines| && Aligned(ps)
    ensures forall k :: 0 <= k < |lines| ==> ps[k] == ParseMemLine(lines[k])
  {
    seq(|lines|, k requires 0 <= k < |lines| => ParseMemLine(lines[k]))
  }

  /** Every parsed amount is a whole number of kilobytes in bytes. */
  predicate Aligned(ps: seq<Option<(string, nat)>>) {
    forall k :: 0 <= k < |ps| && ps[k].Some? ==> ps[k].value.1 % 1024 == 0
  }

  /** The loop of `getMemoryInfo` over the parsed lines: stops at the
      first line after which all four counters have been read; None when
      the text runs out first (the caller then falls back to other
      sources). */
  function ScanMemInfo(ps: seq<Option<(string, nat)>>, st: MemState): (r: Option<MemoryInfo>)
  {
    if |ps| == 0 then None
    else match ps[0]
      case None => ScanMemInfo(ps[1..], st)
      case Some((field, n)) =>
        if !IsMemField(field) then ScanMemInfo(ps[1..], st)
        else
          var next := Record(st, field, n);
          if AllRead(next) then Some(Report(next)) else ScanMemInfo(ps[1..], next)
  }

  function MemInfo(meminfo: string): Option<MemoryInfo> {
    ScanMemInfo(ParseMemLines(SplitIgnoreEmpty(meminfo, '\n')), Unread)
  }

  /** The readings of the four counters among the parsed lines, in order. */
  function Readings(ps: seq<Option<(string, nat)>>): (r: seq<(string, nat)>)
    ensures forall k :: 0 <= k < |r| ==> IsMemField(r[k].0)
    ensures Aligned(ps) ==> forall k :: 0 <= k < |r| ==> r[k].1 % 1024 == 0
  {
    if |ps| == 0 then []
    else
      (match ps[0]
       case None => []
       case Some((field, n)) => if IsMemField(field) then [(field, n)] else [])
      + Readings(ps[1..])
  }

  /** The value of the last reading of `field`, or `U64Max`. */
  function Last(rs: seq<(string, nat)>, field: string): nat {
    if |rs| == 0 then U64Max
    else if rs[|rs| - 1].0 == field then rs[|rs| - 1].1
    else Last(rs[..|rs| - 1], field)
  }

  predicate Seen(rs: seq<(string, nat)>, field: string) {
    exists k :: 0 <= k < |rs| && rs[k].0 == field
  }

  predicate SeenAll(rs: seq<(string, nat)>) {
    Seen(rs, "MemTotal") && Seen(rs, "MemFree") && Seen(rs, "Buffers") && Seen(rs, "Cached")
  }

  /** The counters after the readings `rs`: the last reading of each. */
  function StateAfter(rs: seq<(string, nat)>): MemState {
    MemState(Last(rs, "MemTotal"), Last(rs, "MemFree"), Last(rs, "Buffers"), Last(rs, "Cached"))
  }

  /** A counter is read exactly when its field has been seen: no reading
      in bytes can equal the sentinel. */
  lemma {:induction false} LastIsSentinelIffUnseen(rs: seq<(string, nat)>, field: string)
    requires forall k :: 0 <= k < |rs| ==> rs[k].1 % 1024 == 0
    ensures Last(rs, field) != U64Max <==> Seen(rs, field)
    decreases |rs|
  {
    if |rs| > 0 {
      var init := rs[..|rs| - 1];
      LastIsSentinelIffUnseen(init, field);
      if rs[|rs| - 1].0 != field {
        if Seen(rs, field) {
          var k :| 0 <= k < |rs| && rs[k].0 == field;
          assert init[k].0 == field;
        }
        if Seen(init, field) {
          var k :| 0 <= k < |init| && init[k].0 == field;
          assert rs[k].0 == field;
        }
      } else {
        assert U64Max % 1024 == 1023;
      }
    }
  }

  lemma StateAfterStep(rs: seq<(string, nat)>, x: (string, nat))
    requires IsMemField(x.0)
    ensures StateAfter(rs + [x]) == Record(StateAfter(rs), x.0, x.1)
  {
    assert (rs + [x])[..|rs|] == rs;
  }

  lemma SeenAllRead(rs: seq<(string, nat)>)
    requires forall k :: 0 <= k < |rs| ==> rs[k].1 % 1024 == 0
    ensures AllRead(StateAfter(rs)) <==> SeenAll(rs)
  {
    LastIsSentinelIffUnseen(rs, "MemTotal");
    LastIsSentinelIffUnseen(rs, "MemFree");
    LastIsSentinelIffUnseen(rs, "Buffers");
    LastIsSentinelIffUnseen(rs, "Cached");
  }

  lemma SeenGrows(rs: seq<(string, nat)>, ts: seq<(string, nat)>, field: string)
    requires Seen(rs, field)
    ensures Seen(rs + ts, field)
  {
    var k :| 0 <= k < |rs| && rs[k].0 == field;
    assert (rs + ts)[k].0 == field;
  }

  /** The scan from the counters after `done` agrees with the readings:
      it reports exactly when `done` and the remaining lines complete the
      set, and then it reports the last readings up to the first point
      where all four were seen. */
  lemma AlignedTail(ps: seq<Option<(string, nat)>>)
    requires |ps| > 0 && Aligned(ps)
    ensures Aligned(ps[1..])
  {
    assert forall k :: 0 <= k < |ps| - 1 ==> ps[1..][k] == ps[k + 1];
  }

  predicate ScanAgrees(ps: seq<Option<(string, nat)>>, done: seq<(string, nat)>) {
    var all := done + Readings(ps);
    var r := ScanMemInfo(ps, StateAfter(done));
    && (r.Some? <==> SeenAll(all))
    && (r.Some? ==> exists k :: |done| < k <= |all| && SeenAll(all[..k]) && !SeenAll(all[..k - 1])
                              && r.value == Report(StateAfter(all[..k])))
  }

  /** The scan from any state that did not yet see all four labels. */
  lemma {:induction false} ScanMatchesReadings(ps: seq<Option<(string, nat)>>, done: seq<(string, nat)>)
    requires Aligned(ps)
    requires forall k :: 0 <= k < |done| ==> done[k].1 % 1024 == 0
    requires !SeenAll(done)
    ensures ScanAgrees(ps, done)
    decreases |ps|
  {
    if |ps| == 0 {
      assert done + Readings(ps) == done;
    } else {
      match ps[0]
      case None =>
        AlignedTail(ps);
        ScanMatchesReadings(ps[1..], done);
        ScanSkips(ps, done);
      case Some((field, n)) =>
        if !IsMemField(field) {
          AlignedTail(ps);
          ScanMatchesReadings(ps[1..], done);
          ScanSkips(ps, done);
        } else {
          var x := (field, n);
          assert ps[0].Some? && n % 1024 == 0;
          AlignedTail(ps);
          StateAfterStep(done, x);
          SeenAllRead(done + [x]);
          if SeenAll(done + [x]) {
            ScanCompletes(ps, done, x);
          } else {
            ScanMatchesReadings(ps[1..], done + [x]);
            ScanRecords(ps, done, x);
          }
        }
    }
  }

  /** A line that yields no reading changes nothing. */
  lemma ScanSkips(ps: seq<Option<(string, nat)>>, done: seq<(string, nat)>)
    requires |ps| > 0 && ScanAgrees(ps[1..], done)
    requires ps[0].None? || !IsMemField(ps[0].value.0)
    ensures ScanAgrees(ps, done)
  {
    assert Readings(ps) == Readings(ps[1..]);
    assert ScanMemInfo(ps, StateAfter(done)) == ScanMemInfo(ps[1..], StateAfter(done));
  }

  /** A reading that does not complete the set moves into `done`. */
  lemma ScanRecords(ps: seq<Option<(string, nat)>>, done: seq<(string, nat)>, x: (string, nat))
    requires |ps| > 0 && ps[0] == Some(x) && IsMemField(x.0)
    requires StateAfter(done + [x]) == Record(StateAfter(done), x.0, x.1)
    requires !AllRead(StateAfter(done + [x]))
    requires ScanAgrees(ps[1..], done + [x])
    ensures ScanAgrees(ps, done)
  {
    assert Readings(ps) == [x] + Readings(ps[1..]);
    assert done + Readings(ps) == (done + [x]) + Readings(ps[1..]);
    assert ScanMemInfo(ps, StateAfter(done)) == ScanMemInfo(ps[1..], StateAfter(done + [x]));
  }

  /** The reading `x` that completes the set is the reporting point. */
  lemma ScanCompletes(ps: seq<Option<(string, nat)>>, done: seq<(string, nat)>, x: (string, nat))
    requires |ps| > 0 && ps[0] == Some(x) && IsMemField(x.0)
    requires StateAfter(done + [x]) == Record(StateAfter(done), x.0, x.1)
    requires AllRead(StateAfter(done + [x]))
    requires !SeenAll(done) && SeenAll(done + [x])
    ensures ScanAgrees(ps, done)
  {
    var all := done + Readings(ps);
    assert Readings(ps) == [x] + Readings(ps[1..]);
    assert all == done + [x] + Readings(ps[1..]);
    assert all[..|done| + 1] == done + [x];
    assert all[..|done|] == done;
    SeenAllGrows(done + [x], Readings(ps[1..]));
    assert ScanMemInfo(ps, StateAfter(done)) == Some(Report(StateAfter(all[..|done| + 1])));
  }

  lemma SeenAllGrows(rs: seq<(string, nat)>, ts: seq<(string, nat)>)
    requires SeenAll(rs)
    ensures SeenAll(rs + ts)
  {
    SeenGrows(rs, ts, "MemTotal");
    SeenGrows(rs, ts, "MemFree");
    SeenGrows(rs, ts, "Buffers");
    SeenGrows(rs, ts, "Cached");
  }

  /** `getMemoryInfo` from `/proc/meminfo` reports exactly when all four
      labels occur in well-formed lines, and then reports MemTotal and
      MemFree + Buffers + Cached as last read up to the first line that
      completed the set. */
  lemma MemInfoMatchesReadings(meminfo: string)
    ensures var rs := Readings(ParseMemLines(SplitIgnoreEmpty(meminfo, '\n')));
      var r := MemInfo(meminfo);
      && (r.Some? <==> SeenAll(rs))
      && (r.Some? ==> exists k :: 0 < k <= |rs| && SeenAll(rs[..k]) && !SeenAll(rs[..k - 1])
                                && r.value == Report(StateAfter(rs[..k])))
  {
    var ps := ParseMemLines(SplitIgnoreEmpty(meminfo, '\n'));
    assert StateAfter([]) == Unread;
    assert [] + Readings(ps) == Readings(ps);
    ScanMatchesReadings(ps, []);
    assert ScanAgrees(ps, []);
  }

}
