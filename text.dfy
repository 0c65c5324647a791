/** The string operations the admin handlers apply to submitted form text:
    JavaScript's `s.split(',')` followed by `.map(t => t.trim())`, and the
    decimal rendering of a project id inside a redirect path together with the
    parse that the route `/projects/edit/:id` applies to it. */
module Text {

  /** The characters `String.prototype.trim` removes: ECMAScript WhiteSpace
      (tab, vertical tab, form feed, space, no-break space, byte order mark and
      the Unicode space separators) and LineTerminator (LF, CR, LS, PS). */
  predicate IsTrimmable(c: char) {
    var n := c as int;
    n == 0x09 || n == 0x0A || n == 0x0B || n == 0x0C || n == 0x0D || n == 0x20
    || n == 0xA0 || n == 0x1680 || (0x2000 <= n <= 0x200A)
    || n == 0x2028 || n == 0x2029 || n == 0x202F || n == 0x205F
    || n == 0x3000 || n == 0xFEFF
  }

  /** Drops the trimmable prefix: the result is the suffix of `s` that starts
      at its first non-trimmable character (see `TrimStartIsSuffix` and
      `TrimStartDrops`). */
  function TrimStart(s: string): (r: string)
    ensures |r| <= |s|
    ensures r == [] || !IsTrimmable(r[0])
  {
    if s != [] && IsTrimmable(s[0]) then TrimStart(s[1..]) else s
  }

  /** Drops the trimmable suffix: the result is the prefix of `s` that ends at
      its last non-trimmable character (see `TrimEndIsPrefix` and
      `TrimEndDrops`). */
  function TrimEnd(s: string): (r: string)
    ensures |r| <= |s|
    ensures r == [] || !IsTrimmable(r[|r| - 1])
  {
    if s != [] && IsTrimmable(s[|s| - 1]) then TrimEnd(s[..|s| - 1]) else s
  }

  /** `TrimStart` keeps a suffix of `s`. */
  lemma {:induction false} TrimStartIsSuffix(s: string)
    ensures TrimStart(s) == s[|s| - |TrimStart(s)|..]
  {
    if s != [] && IsTrimmable(s[0]) {
      TrimStartIsSuffix(s[1..]);
      assert s[1..][|s| - 1 - |TrimStart(s)|..] == s[|s| - |TrimStart(s)|..];
    }
  }

  /** `TrimEnd` keeps a prefix of `s`. */
  lemma {:induction false} TrimEndIsPrefix(s: string)
    ensures TrimEnd(s) == s[..|TrimEnd(s)|]
  {
    if s != [] && IsTrimmable(s[|s| - 1]) {
      TrimEndIsPrefix(s[..|s| - 1]);
      assert s[..|s| - 1][..|TrimEnd(s)|] == s[..|TrimEnd(s)|];
    }
  }

  /** Everything `TrimStart` drops is trimmable. */
  lemma {:induction false} TrimStartDrops(s: string)
    ensures forall k :: 0 <= k < |s| - |TrimStart(s)| ==> IsTrimmable(s[k])
  {
    if s != [] && IsTrimmable(s[0]) {
      TrimStartDrops(s[1..]);
      forall k | 1 <= k < |s| - |TrimStart(s)|
        ensures IsTrimmable(s[k])
      {
        assert s[k] == s[1..][k - 1];
      }
    }
  }

  /** Everything `TrimEnd` drops is trimmable. */
  lemma {:induction false} TrimEndDrops(s: string)
    ensures forall k :: |TrimEnd(s)| <= k < |s| ==> IsTrimmable(s[k])
  {
    if s != [] && IsTrimmable(s[|s| - 1]) {
      TrimEndDrops(s[..|s| - 1]);
      forall k | |TrimEnd(s)| <= k < |s| - 1
        ensures IsTrimmable(s[k])
      {
        assert s[k] == s[..|s| - 1][k];
      }
    }
  }

  /** `s.trim()`: what is left of `s` once the trimmable characters at both
      ends are gone (see `TrimIsSlice`). It neither starts nor ends with a
      trimmable character. */
  function Trim(s: string): (r: string)
    ensures |r| <= |s|
    ensures r == [] || (!IsTrimmable(r[0]) && !IsTrimmable(r[|r| - 1]))
  {
    var t := TrimStart(s);
    var r := TrimEnd(t);
    TrimEndIsPrefix(t);
    assert r == [] || r[0] == t[0];
    r
  }

  /** The trim of `s` is a slice of `s`: it starts where the trimmable
      prefix ends. */
  lemma TrimIsSlice(s: string)
    ensures |s| - |TrimStart(s)| + |Trim(s)| <= |s|
    ensures Trim(s) == s[|s| - |TrimStart(s)|..|s| - |TrimStart(s)| + |Trim(s)|]
  {
    var t := TrimStart(s);
    var r := TrimEnd(t);
    assert r == Trim(s);
    TrimStartIsSuffix(s);
    TrimEndIsPrefix(t);
    PrefixOfSuffix(s, |s| - |t|, |r|);
  }

  lemma PrefixOfSuffix(s: string, i: nat, n: nat)
    requires i + n <= |s|
    ensures s[i..][..n] == s[i..i + n]
  {
  }

  /** Only trimmable characters are dropped: everything of `s` before the
      trim and after it is trimmable. */
  lemma TrimDropsTrimmable(s: string)
    ensures forall k :: 0 <= k < |s| - |TrimStart(s)| ==> IsTrimmable(s[k])
    ensures forall k :: |s| - |TrimStart(s)| + |Trim(s)| <= k < |s| ==> IsTrimmable(s[k])
  {
    var t := TrimStart(s);
    var i := |s| - |t|;
    var r := TrimEnd(t);
    assert r == Trim(s);
    TrimStartDrops(s);
    TrimEndDrops(t);
    TrimStartIsSuffix(s);
    forall k | i + |r| <= k < |s|
      ensures IsTrimmable(s[k])
    {
      assert s[k] == t[k - i];
    }
  }

  /** The trim is empty exactly when `s` is made of trimmable characters
      only. */
  lemma TrimEmpty(s: string)
    ensures Trim(s) == [] <==> forall k :: 0 <= k < |s| ==> IsTrimmable(s[k])
  {
    TrimDropsTrimmable(s);
    TrimStartIsSuffix(s);
    var t := TrimStart(s);
    if t != [] {
      assert !IsTrimmable(s[|s| - |t|]);
    }
  }

  /** Trimming never introduces a character: what the trim holds, `s` holds. */
  lemma TrimKeepsOut(s: string, c: char)
    requires c !in s
    ensures c !in Trim(s)
  {
    TrimIsSlice(s);
  }

  /** A string with no trimmable character at either end is its own trim. */
  lemma TrimmedIsFixed(s: string)
    requires s == [] || (!IsTrimmable(s[0]) && !IsTrimmable(s[|s| - 1]))
    ensures Trim(s) == s
  {
  }

  /** Trimming twice is trimming once. */
  lemma TrimIdempotent(s: string)
    ensures Trim(Trim(s)) == Trim(s)
  {
    TrimmedIsFixed(Trim(s));
  }

  /** Number of occurrences of `c` in `s`. */
  function Count(s: string, c: char): nat {
    if s == [] then 0 else (if s[0] == c then 1 else 0) + Count(s[1..], c)
  }

  /** The inverse of `Split`: the tokens glued back with `sep` between them. */
  function Join(tokens: seq<string>, sep: char): string
    requires |tokens| > 0
  {
    if |tokens| == 1 then tokens[0] else tokens[0] + [sep] + Join(tokens[1..], sep)
  }

  /** `s.split(sep)` for a one-character separator. Every occurrence of `sep`
      ends a token, so the result has one more token than `s` has separators;
      empty tokens are kept (`"".split(',')` is `[""]`, `"a,,b"` gives three
      tokens), and no token contains `sep`. */
  function Split(s: string, sep: char): (r: seq<string>)
    ensures |r| == Count(s, sep) + 1
  {
    if s == [] then [[]]
    else
      var rest := Split(s[1..], sep);
      if s[0] == sep then [[]] + rest else [[s[0]] + rest[0]] + rest[1..]
  }

  /** No token of a split contains the separator. */
  lemma {:induction false} SplitNoSeparator(s: string, sep: char)
    ensures forall k :: 0 <= k < |Split(s, sep)| ==> sep !in Split(s, sep)[k]
  {
    if s != [] {
      SplitNoSeparator(s[1..], sep);
      var rest := Split(s[1..], sep);
      var r := Split(s, sep);
      if s[0] == sep {
        assert r[1..] == rest;
      } else {
        assert r[1..] == rest[1..];
        assert r[0] == [s[0]] + rest[0];
      }
    }
  }

  /** Joining the tokens of `s` gives `s` back: splitting loses nothing. */
  lemma {:induction false} JoinSplit(s: string, sep: char)
    ensures Join(Split(s, sep), sep) == s
  {
    if s != [] {
      JoinSplit(s[1..], sep);
      var rest := Split(s[1..], sep);
      var r := Split(s, sep);
      if s[0] == sep {
        assert r[1..] == rest;
        assert [sep] + s[1..] == s;
      } else {
        if |rest| > 1 {
          assert r[1..] == rest[1..];
          assert Join(rest, sep) == rest[0] + [sep] + Join(rest[1..], sep);
        }
        assert [s[0]] + s[1..] == s;
      }
    }
  }

  /** A string without `sep` splits into itself alone. */
  lemma {:induction false} SplitWithoutSeparator(t: string, sep: char)
    requires sep !in t
    ensures Split(t, sep) == [t]
  {
    if t != [] {
      SplitWithoutSeparator(t[1..], sep);
      assert [t[0]] + t[1..] == t;
    }
  }

  /** A token followed by `sep` splits off as the first token. */
  lemma {:induction false} SplitLeadingToken(t: string, sep: char, rest: string)
    requires sep !in t
    ensures Split(t + [sep] + rest, sep) == [t] + Split(rest, sep)
  {
    if t == [] {
      assert t + [sep] + rest == [sep] + rest;
      assert ([sep] + rest)[1..] == rest;
    } else {
      SplitLeadingToken(t[1..], sep, rest);
      assert (t + [sep] + rest)[1..] == t[1..] + [sep] + rest;
      assert [t[0]] + t[1..] == t;
    }
  }

  /** Splitting undoes joining, for tokens free of the separator: together
      with `JoinSplit`, the two are inverse bijections. */
  lemma {:induction false} SplitJoin(tokens: seq<string>, sep: char)
    requires |tokens| > 0
    requires forall k :: 0 <= k < |tokens| ==> sep !in tokens[k]
    ensures Split(Join(tokens, sep), sep) == tokens
  {
    if |tokens| == 1 {
      SplitWithoutSeparator(tokens[0], sep);
    } else {
      SplitJoin(tokens[1..], sep);
      SplitLeadingToken(tokens[0], sep, Join(tokens[1..], sep));
      assert [tokens[0]] + tokens[1..] == tokens;
    }
  }

  /** `tokens.map(t => t.trim())`: one token per token. */
  function TrimAll(tokens: seq<string>): (r: seq<string>)
    ensures |r| == |tokens|
  {
    if tokens == [] then [] else [Trim(tokens[0])] + TrimAll(tokens[1..])
  }

  /** Token `k` of the mapped list is token `k` trimmed. */
  lemma {:induction false} TrimAllAt(tokens: seq<string>, k: int)
    requires 0 <= k < |tokens|
    ensures |TrimAll(tokens)| == |tokens|
    ensures TrimAll(tokens)[k] == Trim(tokens[k])
  {
    if k > 0 {
      TrimAllAt(tokens[1..], k - 1);
      assert TrimAll(tokens) == [Trim(tokens[0])] + TrimAll(tokens[1..]);
      assert tokens[1..][k - 1] == tokens[k];
    }
  }

  /** `s.split(',').map(t => t.trim())`: one token per comma-separated field,
      each trimmed, empty ones kept in place (see `TokensAt`). */
  function Tokens(s: string): (r: seq<string>)
    ensures |r| == Count(s, ',') + 1
  {
    TrimAll(Split(s, ','))
  }

  /** There is one token per comma plus one, and token `k` is field `k` of
      the comma split, trimmed, so it holds no comma. */
  lemma TokensAt(s: string, k: int)
    requires 0 <= k <= Count(s, ',')
    ensures |Tokens(s)| == |Split(s, ',')| == Count(s, ',') + 1
    ensures Tokens(s)[k] == Trim(Split(s, ',')[k])
    ensures ',' !in Tokens(s)[k]
  {
    var fields := Split(s, ',');
    assert Tokens(s) == TrimAll(fields);
    TrimAllAt(fields, k);
    SplitNoSeparator(s, ',');
    TrimKeepsOut(fields[k], ',');
  }

  /** Splitting and trimming a comma-joined list of fields gives each field
      trimmed, one token per field, whatever the fields hold. */
  lemma TokensOfJoin(fields: seq<string>)
    requires |fields| > 0
    requires forall k :: 0 <= k < |fields| ==> ',' !in fields[k]
    ensures Tokens(Join(fields, ',')) == TrimAll(fields)
  {
    SplitJoin(fields, ',');
  }

  /** Blank and empty fields stay in the token list as empty strings, in
      their place: the source does not filter them out. An empty submission
      gives one empty token. */
  lemma BlankFieldKept(a: string, blank: string, c: string)
    requires ',' !in a && ',' !in c
    requires forall k :: 0 <= k < |blank| ==> IsTrimmable(blank[k])
    ensures Tokens(a + [','] + blank + [','] + c) == [Trim(a), "", Trim(c)]
    ensures Tokens("") == [""]
  {
    assert ',' !in blank by {
      assert !IsTrimmable(',');
    }
    assert a + [','] + blank + [','] + c == Join([a, blank, c], ',') by {
      JoinThree(a, blank, c, ',');
    }
    TokensOfJoin([a, blank, c]);
    assert Trim(blank) == [] by {
      TrimEmpty(blank);
    }
    TrimAllThree(a, blank, c);
    assert Split("", ',') == [""];
  }

  lemma JoinThree(a: string, b: string, c: string, sep: char)
    ensures Join([a, b, c], sep) == a + [sep] + b + [sep] + c
  {
    var fields := [a, b, c];
    assert fields[1..] == [b, c];
    assert [b, c][1..] == [c];
    assert Join([b, c], sep) == b + [sep] + c;
  }

  lemma TrimAllThree(a: string, b: string, c: string)
    ensures TrimAll([a, b, c]) == [Trim(a), Trim(b), Trim(c)]
  {
    var r := TrimAll([a, b, c]);
    TrimAllAt([a, b, c], 0);
    TrimAllAt([a, b, c], 1);
    TrimAllAt([a, b, c], 2);
    assert |r| == 3 && r[0] == Trim(a) && r[1] == Trim(b) && r[2] == Trim(c);
  }

  /** The decimal digit character for `d`. */
  function Digit(d: int): char
    requires 0 <= d < 10
  {
    ('0' as int + d) as char
  }

  /** The decimal digits of a natural number, most significant first. */
  function NatString(n: nat): (r: string)
    ensures |r| > 0
    ensures forall k :: 0 <= k < |r| ==> '0' <= r[k] <= '9'
  {
    if n < 10 then [Digit(n)] else NatString(n / 10) + [Digit(n % 10)]
  }

  /** `String(n)` for an integer: a minus sign for negatives, then digits. */
  function DecimalString(n: int): string {
    if n < 0 then "-" + NatString(-n) else NatString(n)
  }

  /** The value of a string of decimal digits. */
  function ParseNat(s: string): nat
    requires forall k :: 0 <= k < |s| ==> '0' <= s[k] <= '9'
  {
    if s == [] then 0 else 10 * ParseNat(s[..|s| - 1]) + (s[|s| - 1] as int - '0' as int)
  }

  /** The integer a route parameter such as `"-12"` or `"7"` denotes. */
  function ParseInt(s: string): int
    requires s == [] || s[0] == '-' || '0' <= s[0] <= '9'
    requires forall k :: 1 <= k < |s| ==> '0' <= s[k] <= '9'
  {
    if s != [] && s[0] == '-' then -(ParseNat(s[1..]) as int) else ParseNat(s)
  }

  lemma {:induction false} ParseNatString(n: nat)
    ensures ParseNat(NatString(n)) == n
  {
    if n >= 10 {
      ParseNatString(n / 10);
      var s := NatString(n);
      assert s[..|s| - 1] == NatString(n / 10);
    }
  }

  /** Parsing a rendered id gives the id back, so the redirect to
      `/admin/projects/edit/<id>` designates the project that was saved. */
  lemma DecimalRoundTrip(n: int)
    ensures var s := DecimalString(n);
      (s == [] || s[0] == '-' || '0' <= s[0] <= '9')
      && (forall k :: 1 <= k < |s| ==> '0' <= s[k] <= '9')
      && ParseInt(s) == n
  {
    if n < 0 {
      ParseNatString(-n);
      assert DecimalString(n)[1..] == NatString(-n);
    } else {
      ParseNatString(n);
    }
  }
}
