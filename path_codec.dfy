/**
 * Derivation paths (`path2str`, `str2path` and `HARDENED` of utils.js).
 *
 * A path is a list of BIP-32 indices; an index with bit 31 set is
 * "hardened" and is written with an `h` suffix in the text form
 * `m/84h/0/1`. The decoder follows the Python semantics the JavaScript
 * port was taken from: `str.split("/")`, integer parsing that fails on
 * non-numeric text, and an unbounded `|` for setting the hardened bit.
 */
module PathCodec {
  import opened Common

  /** The hardened bit of a BIP-32 index. */
  const HARDENED: nat := 0x8000_0000

  /** A numeric path component: a 32-bit unsigned index. */
  type U32 = x: nat | x < 0x1_0000_0000

  /** Bit 31 of `n` is set. */
  predicate HasHardenedBit(n: nat)
  {
    (n / HARDENED) % 2 == 1
  }

  /** Python's `n | HARDENED`: bit 31 set, the lower 31 bits unchanged. */
  function SetHardened(n: nat): (r: nat)
    ensures HasHardenedBit(r)
    ensures r % HARDENED == n % HARDENED
    ensures r >= n && r - n <= HARDENED
  {
    if HasHardenedBit(n) then n
    else
      assert (n + HARDENED) / HARDENED == n / HARDENED + 1;
      assert (n + HARDENED) % HARDENED == n % HARDENED;
      n + HARDENED
  }

  // ---------------------------------------------------------------------
  // Decimal text

  predicate IsDigit(c: char)
  {
    '0' <= c <= '9'
  }

  /** Text accepted by the integer parser: one or more decimal digits. */
  predicate IsDecimal(s: string)
  {
    |s| > 0 && forall i :: 0 <= i < |s| ==> IsDigit(s[i])
  }

  /** The value of one decimal digit. */
  function DigitValue(c: char): nat
    requires IsDigit(c)
  {
    c as int - '0' as int
  }

  /** The number a string of decimal digits denotes. */
  function DigitsValue(s: string): nat
    requires forall i :: 0 <= i < |s| ==> IsDigit(s[i])
  {
    if |s| == 0 then 0
    else 10 * DigitsValue(s[..|s| - 1]) + DigitValue(s[|s| - 1])
  }

  /** `String(n)`: the canonical decimal text of `n`. */
  function Decimal(n: nat): (s: string)
    ensures IsDecimal(s) && DigitsValue(s) == n
    ensures s[0] != '0' || |s| == 1
  {
    var d := ((n % 10) + '0' as int) as char;
    if n < 10 then [d]
    else
      var front := Decimal(n / 10);
      assert (front + [d])[..|front|] == front;
      front + [d]
  }

  /** The integer parser used on a path token: decimal text or a failure. */
  function ParseIndex(s: string): (r: Option<nat>)
    ensures r.Some? <==> IsDecimal(s)
  {
    if IsDecimal(s) then Some(DigitsValue(s)) else None
  }

  // ---------------------------------------------------------------------
  // Encoding

  /** One component of `path2str`: the index without its hardened bit, in decimal, then `h` if the bit was set. */
  function Component(v: U32): (c: string)
    ensures c != "" && c != "m" && '/' !in c
    ensures (c[|c| - 1] == 'h') <==> v >= HARDENED
    ensures ParseToken(c) == Some(v as nat)
  {
    var digits := Decimal(v % HARDENED);
    var c := digits + (if v >= HARDENED then "h" else "");
    assert c[0] == digits[0];
    assert c[..|digits|] == digits;
    if v >= HARDENED then
      assert ParseIndex(c[..|c| - 1]) == Some(v % HARDENED);
      assert SetHardened(v % HARDENED) == v;
      c
    else
      assert c == digits && IsDigit(c[|c| - 1]);
      c
  }

  /** The components of a path, in order. */
  function Components(path: seq<U32>): seq<string>
  {
    seq(|path|, i requires 0 <= i < |path| => Component(path[i]))
  }

  /** `parts.join("/")`. */
  function Join(parts: seq<string>): string
  {
    if |parts| == 0 then ""
    else if |parts| == 1 then parts[0]
    else parts[0] + "/" + Join(parts[1..])
  }

  /** `path2str`: the numeric path in the `m/84h/0/1` form; the root `m` alone is the empty path. */
  function Path2Str(path: seq<U32>): (s: string)
    ensures StartsWith(s, "m")
    ensures s == "m" <==> |path| == 0
  {
    var parts := ["m"] + Components(path);
    if |path| == 0 then
      assert parts == ["m"];
      Join(parts)
    else
      assert Join(parts) == "m" + "/" + Join(parts[1..]);
      Join(parts)
  }

  // ---------------------------------------------------------------------
  // Decoding

  /** Python's `s.split("/")`: every `/` ends one token and starts the next; tokens may be empty. */
  function Split(s: string): (r: seq<string>)
    ensures |r| > 0
    ensures forall i :: 0 <= i < |r| ==> '/' !in r[i]
  {
    if |s| == 0 then [""]
    else
      var rest := Split(s[1..]);
      if s[0] == '/' then [""] + rest
      else [[s[0]] + rest[0]] + rest[1..]
  }

  /** One token of `str2path`: a trailing `p`, `'` or `h` marks the index hardened. */
  function ParseToken(t: string): (r: Option<nat>)
    requires t != ""
    ensures t[|t| - 1] in "p'h" ==> (r.Some? <==> IsDecimal(t[..|t| - 1])) && (r.Some? ==> HasHardenedBit(r.value))
    ensures t[|t| - 1] !in "p'h" ==> (r.Some? <==> IsDecimal(t))
  {
    if t[|t| - 1] in "p'h" then
      match ParseIndex(t[..|t| - 1])
      case Some(n) => Some(SetHardened(n))
      case None => None
    else ParseIndex(t)
  }

  /** The tokens `str2path` does not skip: neither `m` nor empty, in their order. */
  function Kept(tokens: seq<string>): (r: seq<string>)
    ensures forall i :: 0 <= i < |r| ==> r[i] != "" && r[i] != "m"
    ensures forall t :: t in tokens && t != "" && t != "m" ==> t in r
    ensures forall t :: t in r ==> t in tokens
  {
    if |tokens| == 0 then []
    else
      var t := tokens[|tokens| - 1];
      var front := tokens[..|tokens| - 1];
      assert tokens == front + [t];
      Kept(front) + (if t == "m" || t == "" then [] else [t])
  }

  /** One iteration of the `str2path` loop: skip `m` and empty tokens, otherwise push the parsed index. */
  function Step(acc: Option<seq<nat>>, t: string): Option<seq<nat>>
  {
    match acc
    case None => None
    case Some(prev) =>
      if t == "m" || t == "" then Some(prev)
      else
        match ParseToken(t)
        case None => None
        case Some(n) => Some(prev + [n])
  }

  /** The loop of `str2path` over the tokens: one index per kept token, or a failure if a kept token does not parse. */
  function DecodeTokens(tokens: seq<string>): Option<seq<nat>>
  {
    if |tokens| == 0 then Some([])
    else Step(DecodeTokens(tokens[..|tokens| - 1]), tokens[|tokens| - 1])
  }

  /** Decoding one more token is one more loop iteration. */
  lemma DecodeSnoc(tokens: seq<string>, t: string)
    ensures DecodeTokens(tokens + [t]) == Step(DecodeTokens(tokens), t)
  {
    assert (tokens + [t])[..|tokens|] == tokens;
  }

  /** What `str2path` computes for a path text. */
  function DecodePath(path: string): Option<seq<nat>>
  {
    DecodeTokens(Split(path))
  }

  /** `str2path`: walks the tokens, skipping `m` and empty ones, and pushes one index per remaining token. */
  method Str2Path(path: string) returns (rv: Option<seq<nat>>)
    ensures rv == DecodePath(path)
  {
    var tokens := Split(path);
    var acc: seq<nat> := [];
    var k := 0;
    while k < |tokens|
      invariant 0 <= k <= |tokens|
      invariant DecodeTokens(tokens[..k]) == Some(acc)
    {
      var t := tokens[k];
      assert tokens[..k + 1] == tokens[..k] + [t];
      DecodeSnoc(tokens[..k], t);
      if t != "m" && t != "" {
        var here := ParseToken(t);
        if here.None? {
          DecodeFailureSticks(tokens[..k + 1], tokens[k + 1..]);
          assert tokens[..k + 1] + tokens[k + 1..] == tokens;
          return None;
        }
        acc := acc + [here.value];
      }
      k := k + 1;
    }
    assert tokens[..k] == tokens;
    rv := Some(acc);
  }

  // ---------------------------------------------------------------------
  // Properties

  /**
   * `str2path` skips `m` and empty tokens and keeps the order of the rest:
   * it succeeds exactly when every kept token parses, and then gives one
   * index per kept token, the parse of that token.
   */
  lemma {:induction false} DecodeTokensMeaning(tokens: seq<string>)
    ensures DecodeTokens(tokens).Some? <==> forall t :: t in Kept(tokens) ==> ParseToken(t).Some?
    ensures DecodeTokens(tokens).Some? ==>
      var r := DecodeTokens(tokens).value;
      |r| == |Kept(tokens)| && forall i :: 0 <= i < |r| ==> ParseToken(Kept(tokens)[i]) == Some(r[i])
  {
    if |tokens| > 0 {
      var front := tokens[..|tokens| - 1];
      var t := tokens[|tokens| - 1];
      DecodeTokensMeaning(front);
      assert tokens == front + [t];
    }
  }

  /** Once a prefix of the tokens fails to decode, no further tokens can rescue it. */
  lemma {:induction false} DecodeFailureSticks(a: seq<string>, b: seq<string>)
    requires DecodeTokens(a) == None
    ensures DecodeTokens(a + b) == None
  {
    if |b| > 0 {
      var b' := b[..|b| - 1];
      DecodeFailureSticks(a, b');
      assert (a + b)[..|a + b| - 1] == a + b';
    } else {
      assert a + b == a;
    }
  }

  /** A skipped token in front changes nothing. */
  lemma {:induction false} DecodeSkipsFront(t: string, tokens: seq<string>)
    requires t == "" || t == "m"
    ensures DecodeTokens([t] + tokens) == DecodeTokens(tokens)
  {
    if |tokens| > 0 {
      var front := tokens[..|tokens| - 1];
      DecodeSkipsFront(t, front);
      assert ([t] + tokens)[..|[t] + tokens| - 1] == [t] + front;
    } else {
      assert [t] + tokens == [t];
      assert [t][..0] == [];
    }
  }

  /** `/` right after a slash-free word splits there. */
  lemma {:induction false} SplitAtSlash(w: string, t: string)
    requires '/' !in w
    ensures Split(w + "/" + t) == [w] + Split(t)
  {
    if |w| == 0 {
      assert w + "/" + t == "/" + t;
      assert ("/" + t)[1..] == t;
    } else {
      SplitAtSlash(w[1..], t);
      assert (w + "/" + t)[1..] == w[1..] + "/" + t;
      assert [w[0]] + w[1..] == w;
    }
  }

  /** A slash-free word is a single token. */
  lemma {:induction false} SplitWord(w: string)
    requires '/' !in w
    ensures Split(w) == [w]
  {
    if |w| > 0 {
      SplitWord(w[1..]);
      assert [w[0]] + w[1..] == w;
    }
  }

  /** Splitting undoes joining slash-free parts. */
  lemma {:induction false} SplitJoin(parts: seq<string>)
    requires |parts| > 0
    requires forall i :: 0 <= i < |parts| ==> '/' !in parts[i]
    ensures Split(Join(parts)) == parts
  {
    if |parts| == 1 {
      SplitWord(parts[0]);
    } else {
      SplitJoin(parts[1..]);
      SplitAtSlash(parts[0], Join(parts[1..]));
      assert [parts[0]] + parts[1..] == parts;
    }
  }

  /** Joining undoes splitting: no character of the text is lost. */
  lemma {:induction false} JoinSplit(s: string)
    ensures Join(Split(s)) == s
  {
    if |s| > 0 {
      var rest := Split(s[1..]);
      JoinSplit(s[1..]);
      if s[0] == '/' {
        assert ([""] + rest)[1..] == rest;
      } else {
        var parts := [[s[0]] + rest[0]] + rest[1..];
        if |rest| > 1 {
          assert parts[1..] == rest[1..];
        }
      }
    }
  }

  /** A trailing `/` adds one empty token at the end. */
  lemma {:induction false} SplitTrailingSlash(s: string)
    ensures Split(s + "/") == Split(s) + [""]
  {
    if |s| == 0 {
      assert s + "/" == "/";
      assert "/"[1..] == "";
    } else {
      SplitTrailingSlash(s[1..]);
      assert (s + "/")[1..] == s[1..] + "/";
    }
  }

  /** `path2str` writes `m` and then exactly one `/`-separated component per index. */
  lemma Path2StrShape(path: seq<U32>)
    ensures Split(Path2Str(path)) == ["m"] + Components(path)
  {
    var parts := ["m"] + Components(path);
    forall i | 0 <= i < |parts| ensures '/' !in parts[i] {
      if i > 0 {
        assert parts[i] == Component(path[i - 1]);
      }
    }
    SplitJoin(parts);
  }

  /** The components of a longer path are those of its front and then that of its last index. */
  lemma ComponentsSnoc(path: seq<U32>)
    requires |path| > 0
    ensures Components(path) == Components(path[..|path| - 1]) + [Component(path[|path| - 1])]
  {
    var front := path[..|path| - 1];
    assert forall i :: 0 <= i < |front| ==> Components(path)[i] == Components(front)[i];
  }

  /** Decoding the component of one more index pushes that index. */
  lemma DecodeOneMore(pre: seq<string>, prev: seq<nat>, v: U32)
    requires DecodeTokens(pre) == Some(prev)
    ensures DecodeTokens(pre + [Component(v)]) == Some(prev + [v as nat])
  {
    DecodeSnoc(pre, Component(v));
  }

  /** Decoding the components recovers the indices. */
  lemma {:induction false} DecodeComponents(path: seq<U32>)
    ensures DecodeTokens(["m"] + Components(path)) == Some(path)
  {
    if |path| == 0 {
      assert ["m"] + Components(path) == [] + ["m"];
      DecodeSnoc([], "m");
    } else {
      var front := path[..|path| - 1];
      var last := path[|path| - 1];
      DecodeComponents(front);
      ComponentsSnoc(path);
      assert ["m"] + Components(path) == (["m"] + Components(front)) + [Component(last)];
      DecodeOneMore(["m"] + Components(front), front, last);
      assert front + [last] == path;
    }
  }

  /** Round trip: `str2path(path2str(p)) == p` for every list of 32-bit indices. */
  lemma RoundTrip(path: seq<U32>)
    ensures DecodePath(Path2Str(path)) == Some(path)
  {
    Path2StrShape(path);
    DecodeComponents(path);
  }

  /** A leading `/` does not change the decoded path. */
  lemma LeadingSlashIgnored(s: string)
    ensures DecodePath("/" + s) == DecodePath(s)
  {
    assert ("/" + s)[1..] == s;
    DecodeSkipsFront("", Split(s));
  }

  /** A trailing `/` does not change the decoded path. */
  lemma TrailingSlashIgnored(s: string)
    ensures DecodePath(s + "/") == DecodePath(s)
  {
    SplitTrailingSlash(s);
    var tokens := Split(s) + [""];
    assert tokens[..|tokens| - 1] == Split(s);
  }

  // ---------------------------------------------------------------------
  // `path2str` as written

  /**
   * `path2str` as written: the `map` callback at utils.js:42-44 has a
   * braced body without `return`, so every component is `undefined`,
   * which `join` renders as empty text.
   */
  function Path2StrAsWritten(path: seq<U32>): (s: string)
    ensures s == "m" + seq(|path|, i => '/')
  {
    JoinEmpties(|path|);
    assert Join(["m"] + seq(|path|, i => "")) == "m" + seq(|path|, i => '/') by {
      if |path| > 0 {
        assert (["m"] + seq(|path|, i => ""))[1..] == seq(|path|, i => "");
        assert "/" + seq(|path| - 1, i => '/') == seq(|path|, i => '/');
      }
    }
    Join(["m"] + seq(|path|, i => ""))
  }

  /** Joining `n` empty components gives the `n - 1` separators alone. */
  lemma {:induction false} JoinEmpties(n: nat)
    ensures n > 0 ==> Join(seq(n, i => "")) == seq(n - 1, i => '/')
  {
    if n > 1 {
      JoinEmpties(n - 1);
      assert seq(n, i => "")[1..] == seq(n - 1, i => "");
      assert "" + "/" + seq(n - 2, i => '/') == seq(n - 1, i => '/');
    }
  }

  /** The written encoder loses every index: `[84]` becomes `m/`, which decodes to the empty path. */
  lemma Path2StrAsWrittenLosesIndices()
    ensures Path2StrAsWritten([84]) == "m/"
    ensures DecodePath(Path2StrAsWritten([84])) == Some([])
    ensures DecodePath(Path2Str([84])) == Some([84])
  {
    var parts := ["m"] + seq(1, i => "");
    assert parts == ["m", ""];
    assert Join(parts) == "m" + "/" + "";
    SplitJoin(parts);
    var tokens := ["m", ""];
    assert tokens[..1] == ["m"];
    assert ["m"][..0] == [];
    RoundTrip([84]);
  }
}
