/**
 * The parts of java.lang.String that the loader relies on: indexOf, lastIndexOf,
 * startsWith/endsWith, substring, replace of one character, split, and the
 * `%s`/`%%`/`%n` subset of String.format.
 */
module JavaStrings {
  import opened Wrappers

  /** `sub` occurs in `s` starting at index `j`. */
  predicate OccursAt(s: string, sub: string, j: int)
  {
    0 <= j && j + |sub| <= |s| && s[j..j + |sub|] == sub
  }

  /** String.indexOf(sub): the first index at which `sub` occurs, or -1. */
  function IndexOf(s: string, sub: string): (r: int)
    ensures -1 <= r && (r >= 0 ==> r + |sub| <= |s|)
  {
    IndexOfFrom(s, sub, 0)
  }

  /** String.indexOf(sub, from) for a non-negative `from`. */
  function IndexOfFrom(s: string, sub: string, from: nat): (r: int)
    ensures r == -1 || (from <= r && r + |sub| <= |s|)
    decreases |s| - from
  {
    if from + |sub| > |s| then -1
    else if s[from..from + |sub|] == sub then from
    else IndexOfFrom(s, sub, from + 1)
  }

  /** The search from `from` finds an occurrence, and none lies between `from` and it. */
  lemma {:induction false} IndexOfFromFinds(s: string, sub: string, from: nat)
    ensures IndexOfFrom(s, sub, from) >= 0 ==> OccursAt(s, sub, IndexOfFrom(s, sub, from))
    ensures forall j :: from <= j < (if IndexOfFrom(s, sub, from) < 0 then |s| + 1 else IndexOfFrom(s, sub, from)) ==> !OccursAt(s, sub, j)
    decreases |s| - from
  {
    if from + |sub| <= |s| && s[from..from + |sub|] != sub {
      IndexOfFromFinds(s, sub, from + 1);
    }
  }

  /** IndexOf finds an occurrence, and none occurs before it. */
  lemma IndexOfFinds(s: string, sub: string)
    ensures IndexOf(s, sub) >= 0 ==> OccursAt(s, sub, IndexOf(s, sub))
    ensures forall j :: 0 <= j < (if IndexOf(s, sub) < 0 then |s| + 1 else IndexOf(s, sub)) ==> !OccursAt(s, sub, j)
  {
    IndexOfFromFinds(s, sub, 0);
  }

  /** The first occurrence is what IndexOf returns, wherever it is. */
  lemma IndexOfIs(s: string, sub: string, k: int)
    requires OccursAt(s, sub, k)
    requires forall j :: 0 <= j < k ==> !OccursAt(s, sub, j)
    ensures IndexOf(s, sub) == k
  {
    IndexOfFinds(s, sub);
  }

  /** No occurrence at all means IndexOf answers -1. */
  lemma IndexOfAbsent(s: string, sub: string)
    requires forall j :: 0 <= j ==> !OccursAt(s, sub, j)
    ensures IndexOf(s, sub) < 0
  {
    IndexOfFinds(s, sub);
  }

  /** A character that `s` does not hold is not found in it. */
  lemma CharAbsent(s: string, c: char)
    requires c !in s
    ensures IndexOf(s, [c]) < 0
  {
    forall j | 0 <= j ensures !OccursAt(s, [c], j) {
      if j + 1 <= |s| {
        assert s[j..j + 1][0] == s[j];
      }
    }
    IndexOfAbsent(s, [c]);
  }

  /** String.lastIndexOf(c): the last index holding `c`, or -1. */
  function LastIndexOf(s: string, c: char): (r: int)
    ensures -1 <= r < |s|
    ensures r >= 0 ==> s[r] == c
    ensures forall j :: r < j < |s| ==> s[j] != c
  {
    if s == [] then -1
    else if s[|s| - 1] == c then |s| - 1
    else LastIndexOf(s[..|s| - 1], c)
  }

  /** Concatenation is associative. */
  lemma Assoc<T>(a: seq<T>, b: seq<T>, c: seq<T>)
    ensures a + b + c == a + (b + c)
  {
  }

  /** Four pieces appended one by one to `g` are `g` followed by the four together. */
  lemma AssocFour<T>(g: seq<T>, a: seq<T>, b: seq<T>, c: seq<T>, e: seq<T>)
    ensures g + a + b + c + e == g + (a + b + c + e)
  {
  }

  /** Five pieces regrouped from the right. */
  lemma Regroup5<T>(h: seq<T>, a: seq<T>, b: seq<T>, c: seq<T>, e: seq<T>)
    ensures (h + (a + b)) + c + e == h + (a + (b + (c + e)))
  {
  }

  /** String.startsWith. */
  predicate StartsWith(s: string, prefix: string)
  {
    |prefix| <= |s| && s[..|prefix|] == prefix
  }

  /** String.endsWith. */
  predicate EndsWith(s: string, suffix: string)
  {
    |suffix| <= |s| && s[|s| - |suffix|..] == suffix
  }

  /**
   * String.substring(begin, end); `None` stands for the
   * StringIndexOutOfBoundsException thrown when the bounds are out of order.
   */
  function Substring(s: string, begin: int, end: int): (r: Option<string>)
    ensures r.Some? <==> 0 <= begin <= end <= |s|
    ensures r.Some? ==> |r.value| == end - begin
  {
    if 0 <= begin <= end <= |s| then Some(s[begin..end]) else None
  }

  /** String.replace(from, to) for one-character arguments. */
  function Replace(s: string, from: char, to: char): (r: string)
    ensures |r| == |s|
    ensures forall i :: 0 <= i < |s| ==> r[i] == (if s[i] == from then to else s[i])
  {
    if s == [] then [] else [if s[0] == from then to else s[0]] + Replace(s[1..], from, to)
  }

  /** Replacing a character that does not occur changes nothing. */
  lemma ReplaceAbsent(s: string, from: char, to: char)
    requires from !in s
    ensures Replace(s, from, to) == s
  {
  }

  /** Replacing around one occurrence of `from` in a string that has no other. */
  lemma ReplaceOnce(p: string, q: string, from: char, to: char)
    requires from !in p && from !in q
    ensures Replace(p + [from] + q, from, to) == p + [to] + q
  {
    ReplaceConcat(p + [from], q, from, to);
    ReplaceConcat(p, [from], from, to);
    ReplaceAbsent(p, from, to);
    ReplaceAbsent(q, from, to);
  }

  /** Replace works piece by piece. */
  lemma {:induction false} ReplaceConcat(a: string, b: string, from: char, to: char)
    ensures Replace(a + b, from, to) == Replace(a, from, to) + Replace(b, from, to)
    decreases |a|
  {
    if a == [] {
      assert a + b == b;
    } else {
      assert a + b != [] && (a + b)[0] == a[0] && (a + b)[1..] == a[1..] + b;
      ReplaceConcat(a[1..], b, from, to);
    }
  }

  /** The inverse of splitting: the parts with `sep` between each two of them. */
  function Join(parts: seq<string>, sep: string): string
  {
    if parts == [] then ""
    else if |parts| == 1 then parts[0]
    else parts[0] + sep + Join(parts[1..], sep)
  }

  /** Four parts joined: the first, then the other three joined, each after a separator. */
  lemma JoinFour(parts: seq<string>, sep: string)
    requires |parts| == 4
    ensures Join(parts, sep) == parts[0] + sep + (parts[1] + sep + (parts[2] + sep + parts[3]))
  {
    var t := parts[1..];
    var u := t[1..];
    assert u[1..] == [parts[3]];
    assert Join(u, sep) == parts[2] + sep + parts[3];
    assert Join(t, sep) == parts[1] + sep + Join(u, sep);
  }

  /** Every part that `sep` never occurs in. */
  predicate SeparatorFree(parts: seq<string>, sep: string)
  {
    forall k :: 0 <= k < |parts| ==> IndexOf(parts[k], sep) < 0
  }

  /** Cut `s` at every occurrence of `sep`, scanning left to right. */
  function SplitAtEvery(s: string, sep: string): (r: seq<string>)
    requires |sep| > 0
    ensures |r| >= 1
    decreases |s|
  {
    var i := IndexOf(s, sep);
    if i < 0 then [s] else [s[..i]] + SplitAtEvery(s[i + |sep|..], sep)
  }

  /** Text before the first occurrence of `sep` holds no `sep`. */
  lemma BeforeFirstOccurrence(s: string, sep: string)
    requires |sep| > 0 && IndexOf(s, sep) >= 0
    ensures IndexOf(s[..IndexOf(s, sep)], sep) < 0
    ensures s == s[..IndexOf(s, sep)] + sep + s[IndexOf(s, sep) + |sep|..]
  {
    var i := IndexOf(s, sep);
    IndexOfFinds(s, sep);
    forall j | 0 <= j ensures !OccursAt(s[..i], sep, j) {
      if j + |sep| <= i {
        assert s[..i][j..j + |sep|] == s[j..j + |sep|];
        assert !OccursAt(s, sep, j);
      }
    }
    IndexOfAbsent(s[..i], sep);
  }

  /** Joining the pieces restores the string, and no piece holds the separator. */
  lemma {:induction false} SplitAtEveryJoins(s: string, sep: string)
    requires |sep| > 0
    ensures Join(SplitAtEvery(s, sep), sep) == s
    ensures SeparatorFree(SplitAtEvery(s, sep), sep)
    decreases |s|
  {
    var i := IndexOf(s, sep);
    if i >= 0 {
      BeforeFirstOccurrence(s, sep);
      SplitAtEveryJoins(s[i + |sep|..], sep);
      var rest := SplitAtEvery(s[i + |sep|..], sep);
      assert SplitAtEvery(s, sep) == [s[..i]] + rest;
      assert ([s[..i]] + rest)[1..] == rest;
    }
  }

  /** Remove the empty strings at the end of a split result. */
  function DropTrailingEmpty(parts: seq<string>): (r: seq<string>)
    ensures r <= parts
    ensures r == [] || r[|r| - 1] != ""
    ensures forall k :: |r| <= k < |parts| ==> parts[k] == ""
  {
    if parts != [] && parts[|parts| - 1] == "" then DropTrailingEmpty(parts[..|parts| - 1]) else parts
  }

  /**
   * String.split(Pattern.quote(sep)) with limit 0: no match gives the whole
   * string; otherwise every piece, with the trailing empty pieces removed.
   */
  function Split(s: string, sep: string): seq<string>
    requires |sep| > 0
  {
    if IndexOf(s, sep) < 0 then [s] else DropTrailingEmpty(SplitAtEvery(s, sep))
  }

  /**
   * String.split(sep, limit) with a positive limit: at most `limit` pieces, the
   * last one holding the rest of the string, separators included.
   */
  function SplitLimit(s: string, sep: string, limit: nat): (r: seq<string>)
    requires |sep| > 0 && limit >= 1
    ensures 1 <= |r| <= limit
    decreases limit
  {
    var i := IndexOf(s, sep);
    if limit == 1 || i < 0 then [s] else [s[..i]] + SplitLimit(s[i + |sep|..], sep, limit - 1)
  }

  /**
   * Joining the pieces restores the string; every piece but the last is free of
   * the separator, and so is the last one when fewer than `limit` pieces came out.
   */
  lemma SplitLimitJoins(s: string, sep: string, limit: nat)
    requires |sep| > 0 && limit >= 1
    ensures Join(SplitLimit(s, sep, limit), sep) == s
    ensures forall k :: 0 <= k < |SplitLimit(s, sep, limit)| - 1 ==> IndexOf(SplitLimit(s, sep, limit)[k], sep) < 0
    ensures |SplitLimit(s, sep, limit)| < limit ==> SeparatorFree(SplitLimit(s, sep, limit), sep)
  {
    SplitLimitJoin(s, sep, limit);
    SplitLimitPiecesFree(s, sep, limit);
  }

  /** Joining the pieces of SplitLimit restores the string. */
  lemma {:induction false} SplitLimitJoin(s: string, sep: string, limit: nat)
    requires |sep| > 0 && limit >= 1
    ensures Join(SplitLimit(s, sep, limit), sep) == s
    decreases limit
  {
    var i := IndexOf(s, sep);
    if limit > 1 && i >= 0 {
      BeforeFirstOccurrence(s, sep);
      var head, tail := s[..i], s[i + |sep|..];
      SplitLimitJoin(tail, sep, limit - 1);
      var rest := SplitLimit(tail, sep, limit - 1);
      assert SplitLimit(s, sep, limit) == [head] + rest;
      JoinCons(head, rest, sep);
    }
  }

  /** The pieces of SplitLimit before the last, and the last too when the limit was not reached, hold no separator. */
  lemma {:induction false} SplitLimitPiecesFree(s: string, sep: string, limit: nat)
    requires |sep| > 0 && limit >= 1
    ensures forall k :: 0 <= k < |SplitLimit(s, sep, limit)| - 1 ==> IndexOf(SplitLimit(s, sep, limit)[k], sep) < 0
    ensures |SplitLimit(s, sep, limit)| < limit ==> SeparatorFree(SplitLimit(s, sep, limit), sep)
    decreases limit
  {
    var i := IndexOf(s, sep);
    if limit > 1 && i >= 0 {
      var head, tail := s[..i], s[i + |sep|..];
      assert IndexOf(head, sep) < 0 by {
        BeforeFirstOccurrence(s, sep);
      }
      SplitLimitPiecesFree(tail, sep, limit - 1);
      var rest := SplitLimit(tail, sep, limit - 1);
      var r := [head] + rest;
      assert SplitLimit(s, sep, limit) == r;
      forall k | 0 <= k < |r| - 1 ensures IndexOf(r[k], sep) < 0 {
        if k > 0 {
          assert r[k] == rest[k - 1];
        }
      }
      if |r| < limit {
        forall k | 0 <= k < |r| ensures IndexOf(r[k], sep) < 0 {
          if k > 0 {
            assert r[k] == rest[k - 1];
          }
        }
      }
    }
  }

  /** Joining a first part in front of other parts puts one separator between. */
  lemma JoinCons(head: string, rest: seq<string>, sep: string)
    requires rest != []
    ensures Join([head] + rest, sep) == head + sep + Join(rest, sep)
  {
    assert ([head] + rest)[1..] == rest;
  }

  /**
   * With a one-character separator that `p` lacks, the first cut of
   * `p + sep + rest` falls right after `p`.
   */
  lemma SplitLimitAtChar(s: string, c: char, p: string, rest: string, limit: nat)
    requires limit > 1 && s == p + [c] + rest && c !in p
    ensures SplitLimit(s, [c], limit) == [p] + SplitLimit(rest, [c], limit - 1)
  {
    assert s[|p|..|p| + 1] == [c];
    forall j | 0 <= j < |p| ensures !OccursAt(s, [c], j) {
      assert s[j..j + 1][0] == p[j];
    }
    IndexOfIs(s, [c], |p|);
    assert s[..|p|] == p && s[|p| + 1..] == rest;
  }

  /** The exception String.format throws. */
  datatype FormatError = MissingFormatArgument | UnknownFormatConversion

  /**
   * String.format(fmt, args) for the conversions `%s`, `%%` and `%n`; every other
   * conversion is taken as an error. Surplus arguments are ignored, as in Java.
   */
  function Format(fmt: string, args: seq<string>): (r: Result<string, FormatError>)
    decreases |fmt|
  {
    if fmt == [] then Success("")
    else if fmt[0] != '%' then Prepend([fmt[0]], Format(fmt[1..], args))
    else if |fmt| == 1 then Failure(UnknownFormatConversion)
    else if fmt[1] == 's' then
      if args == [] then Failure(MissingFormatArgument) else Prepend(args[0], Format(fmt[2..], args[1..]))
    else if fmt[1] == '%' then Prepend("%", Format(fmt[2..], args))
    else if fmt[1] == 'n' then Prepend("\n", Format(fmt[2..], args))
    else Failure(UnknownFormatConversion)
  }

  /** Put `s` in front of a formatted result; an exception passes through. */
  function Prepend(s: string, r: Result<string, FormatError>): Result<string, FormatError>
  {
    match r
    case Success(t) => Success(s + t)
    case Failure(e) => Failure(e)
  }

  /** Text without `%` is copied unchanged by Format. */
  lemma {:induction false} FormatLiteralPrefix(text: string, fmt: string, args: seq<string>)
    requires '%' !in text
    ensures Format(text + fmt, args) == Prepend(text, Format(fmt, args))
    decreases |text|
  {
    if text != [] {
      assert (text + fmt)[0] == text[0] && (text + fmt)[1..] == text[1..] + fmt;
      assert text[0] != '%';
      assert Format(text + fmt, args) == Prepend([text[0]], Format(text[1..] + fmt, args));
      FormatLiteralPrefix(text[1..], fmt, args);
      assert [text[0]] + text[1..] == text;
      match Format(fmt, args)
      case Success(t) => assert [text[0]] + (text[1..] + t) == text + t;
      case Failure(_) =>
    } else {
      assert text + fmt == fmt;
      match Format(fmt, args)
      case Success(t) => assert text + t == t;
      case Failure(_) =>
    }
  }
}
