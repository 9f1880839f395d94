/** src/utils/generate-slug.ts: slugWithId. The text is modelled as ASCII,
    so the NFKD normalisation and the removal of combining marks change
    nothing; the separator is the default '-'. The regular-expression passes
    are modelled one function each, in the source's order. */
module Slug {
  import opened Common

  const Separator: char := '-'

  predicate IsAlnum(c: char) { 'a' <= c <= 'z' || 'A' <= c <= 'Z' || '0' <= c <= '9' }

  /** The characters a default-options slug may contain. */
  predicate IsSlugChar(c: char) { 'a' <= c <= 'z' || '0' <= c <= '9' || c == Separator }

  function LowerChar(c: char): char { if 'A' <= c <= 'Z' then (c as int + 32) as char else c }

  /** String.prototype.toLowerCase on ASCII text. */
  function ToLower(s: string): (r: string)
    ensures |r| == |s| && forall i :: 0 <= i < |s| ==> r[i] == LowerChar(s[i])
  {
    seq(|s|, i requires 0 <= i < |s| => LowerChar(s[i]))
  }

  /** Skips the leading run of characters outside [a-zA-Z0-9]. */
  function DropNonAlnum(s: string): (r: string)
    ensures |r| <= |s|
    ensures r == [] || IsAlnum(r[0])
  {
    if s == [] || IsAlnum(s[0]) then s else DropNonAlnum(s[1..])
  }

  /** What is skipped is a prefix: the rest is a suffix of the text. */
  lemma {:induction false} DropNonAlnumIsSuffix(s: string)
    ensures DropNonAlnum(s) == s[|s| - |DropNonAlnum(s)|..]
    decreases |s|
  {
    if s != [] && !IsAlnum(s[0]) {
      var r := DropNonAlnum(s[1..]);
      DropNonAlnumIsSuffix(s[1..]);
      assert s[1..][|s| - 1 - |r|..] == s[|s| - |r|..];
    }
  }

  /** `.replace(/[^a-zA-Z0-9]+/g, separator)`: every maximal run of other
      characters becomes one separator. */
  function ReplaceRuns(s: string): string
    decreases |s|
  {
    if s == [] then []
    else if IsAlnum(s[0]) then [s[0]] + ReplaceRuns(s[1..])
    else [Separator] + ReplaceRuns(DropNonAlnum(s[1..]))
  }

  /** `.replace(/-+/g, separator)`: runs of separators become one. */
  function CollapseSeparators(s: string): string
    decreases |s|
  {
    if |s| <= 1 then s
    else if s[0] == Separator && s[1] == Separator then CollapseSeparators(s[1..])
    else [s[0]] + CollapseSeparators(s[1..])
  }

  /** `.replace(/^-|-$/g, "")`: one leading and one trailing separator go. */
  function TrimSeparators(s: string): string {
    var t := if |s| > 0 && s[0] == Separator then s[1..] else s;
    if |t| > 0 && t[|t| - 1] == Separator then t[..|t| - 1] else t
  }

  /** The slug part of slugWithId, before the id is appended. */
  function Normalize(input: string, lower: bool): string {
    var slug := TrimSeparators(CollapseSeparators(ReplaceRuns(input)));
    if lower then ToLower(slug) else slug
  }

  /** slugWithId: the normalised slug, the separator and the id; the id alone
      when the slug is empty. The id is `presetId` when given, otherwise the
      one the unique strategy generates (`generatedId`: a clock and random
      source for "time" and "uuid", ShortId below for "short"). */
  function SlugWithId(input: string, lower: bool, presetId: Option<string>, generatedId: string): (r: string)
    ensures var id := if presetId.Some? then presetId.value else generatedId;
            var slug := Normalize(input, lower);
            if slug == [] then r == id
            else |r| == |slug| + 1 + |id| && r[..|slug|] == slug && r[|slug|] == Separator && r[|slug| + 1..] == id
  {
    var slug := Normalize(input, lower);
    var id := if presetId.Some? then presetId.value else generatedId;
    if slug != [] then slug + [Separator] + id else id
  }

  /** With a preset id, the result ends in exactly that id. */
  lemma PresetIdIsSuffix(input: string, lower: bool, preset: string, generatedId: string)
    ensures var r := SlugWithId(input, lower, Some(preset), generatedId);
            |r| >= |preset| && r[|r| - |preset|..] == preset
  {
    var r := SlugWithId(input, lower, Some(preset), generatedId);
    var slug := Normalize(input, lower);
    if slug != [] {
      assert r[|slug| + 1..] == preset;
    }
  }

  // ---------------------------------------------------------------------
  // Shape of the slug

  predicate AlnumOrSep(s: string) { forall i :: 0 <= i < |s| ==> IsAlnum(s[i]) || s[i] == Separator }

  predicate NoDoubleSeparator(s: string) {
    forall i :: 0 <= i < |s| - 1 ==> !(s[i] == Separator && s[i + 1] == Separator)
  }

  /** Neither starts nor ends with the separator, and never has two in a row. */
  predicate WellSeparated(s: string) {
    NoDoubleSeparator(s) && (s != [] ==> s[0] != Separator && s[|s| - 1] != Separator)
  }

  lemma {:induction false} ReplaceRunsStartsWithAlnum(s: string)
    requires s != [] && IsAlnum(s[0])
    ensures ReplaceRuns(s) != [] && ReplaceRuns(s)[0] == s[0]
  {
  }

  /** The first pass leaves only alphanumerics and single separators. */
  lemma {:induction false} ReplaceRunsShape(s: string)
    ensures AlnumOrSep(ReplaceRuns(s)) && NoDoubleSeparator(ReplaceRuns(s))
    decreases |s|
  {
    if s == [] {
    } else if IsAlnum(s[0]) {
      ReplaceRunsShape(s[1..]);
      var rest := ReplaceRuns(s[1..]);
      assert ReplaceRuns(s) == [s[0]] + rest;
      assert forall i :: 1 <= i < |ReplaceRuns(s)| ==> ReplaceRuns(s)[i] == rest[i - 1];
    } else {
      var d := DropNonAlnum(s[1..]);
      ReplaceRunsShape(d);
      var rest := ReplaceRuns(d);
      assert ReplaceRuns(s) == [Separator] + rest;
      if d != [] {
        ReplaceRunsStartsWithAlnum(d);
      }
      assert forall i :: 1 <= i < |ReplaceRuns(s)| ==> ReplaceRuns(s)[i] == rest[i - 1];
    }
  }

  /** The second pass changes nothing once there are no double separators. */
  lemma {:induction false} CollapseKeepsSingleSeparators(s: string)
    requires NoDoubleSeparator(s)
    ensures CollapseSeparators(s) == s
    decreases |s|
  {
    if |s| > 1 {
      assert !(s[0] == Separator && s[1] == Separator);
      assert NoDoubleSeparator(s[1..]) by {
        forall i | 0 <= i < |s[1..]| - 1 ensures !(s[1..][i] == Separator && s[1..][i + 1] == Separator) {
          assert s[1..][i] == s[i + 1] && s[1..][i + 1] == s[i + 2];
        }
      }
      CollapseKeepsSingleSeparators(s[1..]);
    }
  }

  lemma TrimShape(s: string)
    requires AlnumOrSep(s) && NoDoubleSeparator(s)
    ensures AlnumOrSep(TrimSeparators(s)) && WellSeparated(TrimSeparators(s))
  {
    var t := if |s| > 0 && s[0] == Separator then s[1..] else s;
    var off := |s| - |t|;
    var u := if |t| > 0 && t[|t| - 1] == Separator then t[..|t| - 1] else t;
    assert TrimSeparators(s) == u;
    assert forall i :: 0 <= i < |u| ==> u[i] == s[i + off] by {
      forall i | 0 <= i < |u| ensures u[i] == s[i + off] {
        assert u[i] == t[i];
      }
    }
    forall i | 0 <= i < |u| - 1 ensures !(u[i] == Separator && u[i + 1] == Separator) {
      assert u[i] == s[i + off] && u[i + 1] == s[i + 1 + off];
    }
    if u != [] {
      assert u[0] == s[off];
      if off == 1 {
        assert !(s[0] == Separator && s[1] == Separator);
      }
      var n := |u| - 1;
      assert u[n] == s[n + off];
      if u != t {
        assert t[|t| - 1] == Separator && t[|t| - 1] == s[n + 1 + off];
      }
    }
  }

  lemma ToLowerShape(s: string)
    requires AlnumOrSep(s) && WellSeparated(s)
    ensures AlnumOrSep(ToLower(s)) && WellSeparated(ToLower(s))
    ensures forall i :: 0 <= i < |s| ==> IsSlugChar(ToLower(s)[i])
  {
  }

  /** The slug part never starts or ends with the separator and never holds
      two in a row; with lower-casing (the default) it holds only a-z, 0-9 and '-'. */
  lemma NormalizeShape(input: string, lower: bool)
    ensures WellSeparated(Normalize(input, lower)) && AlnumOrSep(Normalize(input, lower))
    ensures lower ==> forall i :: 0 <= i < |Normalize(input, lower)| ==> IsSlugChar(Normalize(input, lower)[i])
  {
    var r := ReplaceRuns(input);
    ReplaceRunsShape(input);
    CollapseKeepsSingleSeparators(r);
    TrimShape(r);
    if lower {
      ToLowerShape(TrimSeparators(r));
    }
  }

  // ---------------------------------------------------------------------
  // Idempotence

  /** Every separator is followed by an alphanumeric character. */
  predicate SeparatorsGuarded(s: string) {
    forall i :: 0 <= i < |s| && s[i] == Separator ==> i + 1 < |s| && IsAlnum(s[i + 1])
  }

  lemma {:induction false} ReplaceRunsKeepsGuarded(s: string)
    requires AlnumOrSep(s) && SeparatorsGuarded(s)
    ensures ReplaceRuns(s) == s
    decreases |s|
  {
    if s != [] {
      assert AlnumOrSep(s[1..]) && SeparatorsGuarded(s[1..]) by {
        forall i | 0 <= i < |s[1..]| ensures IsAlnum(s[1..][i]) || s[1..][i] == Separator {
          assert s[1..][i] == s[i + 1];
        }
        forall i | 0 <= i < |s[1..]| && s[1..][i] == Separator ensures i + 1 < |s[1..]| && IsAlnum(s[1..][i + 1]) {
          assert s[1..][i] == s[i + 1];
        }
      }
      if !IsAlnum(s[0]) {
        assert IsAlnum(s[1]);
        assert DropNonAlnum(s[1..]) == s[1..];
      }
      ReplaceRunsKeepsGuarded(s[1..]);
    }
  }

  lemma GuardedWhenWellSeparated(s: string)
    requires AlnumOrSep(s) && WellSeparated(s)
    ensures SeparatorsGuarded(s)
  {
    forall i | 0 <= i < |s| && s[i] == Separator ensures i + 1 < |s| && IsAlnum(s[i + 1]) {
      assert i != |s| - 1;
      assert !(s[i] == Separator && s[i + 1] == Separator);
    }
  }

  lemma TrimKeepsWellSeparated(s: string)
    requires WellSeparated(s)
    ensures TrimSeparators(s) == s
  {
  }

  lemma ToLowerIdempotent(s: string)
    ensures ToLower(ToLower(s)) == ToLower(s)
  {
  }

  /** Normalising an already normalised slug gives it back unchanged. */
  lemma NormalizeIdempotent(input: string, lower: bool)
    ensures Normalize(Normalize(input, lower), lower) == Normalize(input, lower)
  {
    var n := Normalize(input, lower);
    NormalizeShape(input, lower);
    GuardedWhenWellSeparated(n);
    ReplaceRunsKeepsGuarded(n);
    CollapseKeepsSingleSeparators(n);
    TrimKeepsWellSeparated(n);
    var slug := TrimSeparators(CollapseSeparators(ReplaceRuns(n)));
    assert slug == n;
    if lower {
      var m := TrimSeparators(CollapseSeparators(ReplaceRuns(input)));
      assert n == ToLower(m);
      ToLowerIdempotent(m);
    }
  }

  // ---------------------------------------------------------------------
  // The slug is the maximal alphanumeric runs, joined by single separators

  /** Length of the leading run of alphanumerics. */
  function AlnumPrefix(s: string): (k: nat)
    ensures k <= |s|
    ensures forall i :: 0 <= i < k ==> IsAlnum(s[i])
    ensures k == |s| || !IsAlnum(s[k])
  {
    if s == [] || !IsAlnum(s[0]) then 0 else 1 + AlnumPrefix(s[1..])
  }

  /** The maximal runs of alphanumerics, in order. */
  function Runs(s: string): seq<string>
    decreases |s|
  {
    if s == [] then []
    else if !IsAlnum(s[0]) then Runs(s[1..])
    else
      var k := AlnumPrefix(s);
      [s[..k]] + Runs(s[k..])
  }

  function Join(parts: seq<string>): string {
    if parts == [] then []
    else if |parts| == 1 then parts[0]
    else parts[0] + [Separator] + Join(parts[1..])
  }

  predicate AllAlnum(s: string) { forall i :: 0 <= i < |s| ==> IsAlnum(s[i]) }

  /** A separator when the text starts with a character outside [a-zA-Z0-9]. */
  function Lead(s: string): string { if s != [] && !IsAlnum(s[0]) then [Separator] else [] }
  /** A separator when the text has a run and ends outside [a-zA-Z0-9]. */
  function Trail(s: string): string { if Runs(s) != [] && !IsAlnum(s[|s| - 1]) then [Separator] else [] }

  // ---------------------------------------------------------------------
  // The "short" unique strategy

  /** The first `n` random chunks, concatenated. */
  function Chunks(chunk: nat -> string, n: nat): string {
    if n == 0 then [] else Chunks(chunk, n - 1) + chunk(n - 1)
  }

  /** The "short" strategy: append random base-36 chunks
      (`Math.random().toString(36).slice(2)`, the `chunk` parameter, each
      non-empty) until the text is at least `uniqueLength` long, then keep its
      first `uniqueLength` characters. */
  method ShortId(uniqueLength: int, chunk: nat -> string) returns (id: string, ghost rounds: nat)
    requires forall k :: chunk(k) != []
    ensures |id| == if uniqueLength < 0 then 0 else uniqueLength
    ensures |id| <= |Chunks(chunk, rounds)| && id == Chunks(chunk, rounds)[..|id|]
  {
    var s := "";
    var n := 0;
    while |s| < uniqueLength
      invariant s == Chunks(chunk, n)
      decreases uniqueLength - |s|
    {
      s := s + chunk(n);
      n := n + 1;
    }
    rounds := n;
    // String.prototype.slice(0, n) with a negative n keeps nothing here
    id := if uniqueLength <= 0 then "" else s[..uniqueLength];
  }
}
