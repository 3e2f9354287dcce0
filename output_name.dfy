/**
 * The default report name of `main`: strip leading and trailing quote
 * characters from the typed path, take its base name (POSIX `os.path`,
 * separator '/'), drop the extension as `os.path.splitext` does, and append
 * "_extracted_with_debug.txt".
 */
module OutputName {
  import opened Wrappers

  const Suffix: string := "_extracted_with_debug.txt"

  predicate IsQuote(c: char)
  {
    c == '"' || c == '\''
  }

  function DropLeadingQuotes(s: string): (r: string)
    ensures |r| <= |s| && r == s[|s| - |r|..]
    ensures forall k :: 0 <= k < |s| - |r| ==> IsQuote(s[k])
    ensures r != [] ==> !IsQuote(r[0])
  {
    if s != [] && IsQuote(s[0]) then DropLeadingQuotes(s[1..]) else s
  }

  function DropTrailingQuotes(s: string): (r: string)
    ensures |r| <= |s| && r == s[..|r|]
    ensures forall k :: |r| <= k < |s| ==> IsQuote(s[k])
    ensures r != [] ==> !IsQuote(r[|r| - 1])
  {
    if s != [] && IsQuote(s[|s| - 1]) then DropTrailingQuotes(s[..|s| - 1]) else s
  }

  /** r is s with a leading run of a characters and a trailing run removed, all of them quotes. */
  ghost predicate TrimmedAt(s: string, r: string, a: nat)
  {
    && a + |r| <= |s|
    && r == s[a..a + |r|]
    && (forall k :: 0 <= k < a ==> IsQuote(s[k]))
    && (forall k :: a + |r| <= k < |s| ==> IsQuote(s[k]))
  }

  /**
   * Python's `s.strip('"\'')`: the longest middle part of s whose ends are
   * not quotes, everything cut off on either side being quotes.
   */
  function StripQuotes(s: string): (r: string)
    ensures exists a :: TrimmedAt(s, r, a)
    ensures r != [] ==> !IsQuote(r[0]) && !IsQuote(r[|r| - 1])
  {
    var left := DropLeadingQuotes(s);
    var r := DropTrailingQuotes(left);
    assert TrimmedAt(s, r, |s| - |left|);
    r
  }

  /** Stripping twice strips nothing more. */
  lemma StripQuotesIdempotent(s: string)
    ensures StripQuotes(StripQuotes(s)) == StripQuotes(s)
  {
    var r := StripQuotes(s);
    assert DropLeadingQuotes(r) == r;
    assert DropTrailingQuotes(r) == r;
  }

  /** The index of the last c in s, if any. */
  function LastIndexOf(s: string, c: char): (r: Option<nat>)
    ensures r.None? ==> forall j :: 0 <= j < |s| ==> s[j] != c
    ensures r.Some? ==> r.value < |s| && s[r.value] == c && forall j :: r.value < j < |s| ==> s[j] != c
  {
    if s == [] then None
    else if s[|s| - 1] == c then Some(|s| - 1)
    else LastIndexOf(s[..|s| - 1], c)
  }

  /** `os.path.basename` on POSIX: what follows the last '/'. */
  function Basename(p: string): (b: string)
    ensures |b| <= |p| && b == p[|p| - |b|..]
    ensures forall k :: 0 <= k < |b| ==> b[k] != '/'
    ensures |b| < |p| ==> p[|p| - |b| - 1] == '/'
  {
    if p == [] || p[|p| - 1] == '/' then [] else Basename(p[..|p| - 1]) + [p[|p| - 1]]
  }

  /** No '/' at or after index k. */
  ghost predicate NoSlashFrom(p: string, k: nat)
  {
    forall j :: k <= j < |p| ==> p[j] != '/'
  }

  /**
   * The last path component has an extension: a '.' preceded, within that
   * component, by some character other than '.'. So "notes.html" has one, and
   * ".bashrc", "..x" and "name" have none.
   */
  ghost predicate HasExtension(p: string)
  {
    exists k, d :: 0 <= k < d < |p| && p[d] == '.' && p[k] != '.' && NoSlashFrom(p, k)
  }

  /** `os.path.splitext` on POSIX: (root, ext) with root + ext == p. */
  function SplitExt(p: string): (parts: (string, string))
    ensures parts.0 + parts.1 == p
    ensures parts.1 != [] ==> parts.1[0] == '.' && forall j :: 0 < j < |parts.1| ==> parts.1[j] != '.' && parts.1[j] != '/'
    ensures parts.1 != [] <==> HasExtension(p)
  {
    var sepIndex: int := match LastIndexOf(p, '/') case None => -1 case Some(k) => k;
    var dotIndex: int := match LastIndexOf(p, '.') case None => -1 case Some(k) => k;
    if dotIndex > sepIndex && exists k | sepIndex + 1 <= k < dotIndex :: p[k] != '.' then
      var k :| sepIndex + 1 <= k < dotIndex && p[k] != '.';
      assert NoSlashFrom(p, k);
      (p[..dotIndex], p[dotIndex..])
    else
      assert !HasExtension(p) by {
        forall k, d | 0 <= k < d < |p| && p[d] == '.' && NoSlashFrom(p, k)
          ensures p[k] == '.'
        {
          assert sepIndex < k && d <= dotIndex;
        }
      }
      (p, [])
  }

  /**
   * stem is p with its extension, if p has one, removed: a prefix of p that
   * is all of p exactly when p has no extension, and otherwise stops at a
   * '.' after which p has no other '.'.
   */
  ghost predicate IsStem(p: string, stem: string)
  {
    && stem <= p
    && (stem == p <==> !HasExtension(p))
    && (stem != p ==> p[|stem|] == '.' && forall j :: |stem| < j < |p| ==> p[j] != '.')
  }

  lemma SplitExtRootIsStem(p: string)
    ensures IsStem(p, SplitExt(p).0)
  {
    var parts := SplitExt(p);
    assert p[..|parts.0|] == parts.0 && p[|parts.0|..] == parts.1;
  }

  /** The default report name: the unquoted path's base name, without its extension, then the suffix. */
  function DefaultOutputName(typed: string): (name: string)
    ensures |name| >= |Suffix| && name[|name| - |Suffix|..] == Suffix
  {
    var root := SplitExt(Basename(StripQuotes(typed))).0;
    var name := root + Suffix;
    assert name[|root|..] == Suffix;
    name
  }

  /**
   * What comes before the suffix in the default name is the base name of the
   * unquoted path with its extension (if any) removed, so it holds no '/'.
   */
  lemma DefaultOutputNameStem(typed: string)
    ensures var name := DefaultOutputName(typed);
      && IsStem(Basename(StripQuotes(typed)), name[..|name| - |Suffix|])
      && forall k :: 0 <= k < |name| - |Suffix| ==> name[k] != '/'
  {
    var base := Basename(StripQuotes(typed));
    var root := SplitExt(base).0;
    SplitExtRootIsStem(base);
    var name := DefaultOutputName(typed);
    assert name == root + Suffix;
    assert name[..|root|] == root;
    forall k | 0 <= k < |root|
      ensures name[k] != '/'
    {
      assert name[k] == base[k];
    }
  }
}
