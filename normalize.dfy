/** Canonicalisation of a user-supplied domain (normalize_domain in main.py).

    The source lower-cases the text, deletes every occurrence of "https://",
    then every occurrence of "http://", then every occurrence of "www.", and
    keeps what precedes the first '/'. Deletion is Python's str.replace with an
    empty replacement: one left-to-right pass over non-overlapping matches. */
module DomainNormalizer {

  predicate IsUpper(c: char) {
    'A' <= c <= 'Z'
  }

  /** str.lower on one character, for the ASCII range. */
  function LowerChar(c: char): (r: char)
    ensures !IsUpper(r)
    ensures IsUpper(c) ==> r as int == c as int + 32
    ensures !IsUpper(c) ==> r == c
  {
    if IsUpper(c) then (c as int + 32) as char else c
  }

  /** str.lower, for the ASCII range: no upper-case letter survives, and
      text without one is returned as it is. */
  function Lower(s: string): (r: string)
    ensures |r| == |s|
    ensures forall i | 0 <= i < |r| :: !IsUpper(r[i])
    ensures (forall i | 0 <= i < |s| :: !IsUpper(s[i])) ==> r == s
  {
    seq(|s|, i requires 0 <= i < |s| => LowerChar(s[i]))
  }

  /** p occurs in s starting at position i. */
  predicate OccursAt(p: string, s: string, i: int) {
    0 <= i && i + |p| <= |s| && s[i..i + |p|] == p
  }

  /** p occurs in s as a contiguous substring. */
  ghost predicate Occurs(p: string, s: string) {
    exists i :: OccursAt(p, s, i)
  }

  /** s.replace(p, ''): scan left to right; at a match, skip the whole match. */
  function RemoveAll(s: string, p: string): (r: string)
    requires p != []
    decreases |s|
  {
    if |s| < |p| then s
    else if s[..|p|] == p then RemoveAll(s[|p|..], p)
    else [s[0]] + RemoveAll(s[1..], p)
  }

  /** s.split('/')[0]: the text before the first '/', or all of s. */
  function BeforeSlash(s: string): (r: string)
    decreases |s|
  {
    if s == [] || s[0] == '/' then [] else [s[0]] + BeforeSlash(s[1..])
  }

  function NormalizeDomain(raw: string): string {
    var lowered := Lower(raw);
    var noScheme := RemoveAll(RemoveAll(lowered, "https://"), "http://");
    BeforeSlash(RemoveAll(noScheme, "www."))
  }

  // ---------------------------------------------------------------------
  // Properties of the building blocks

  /** Deletion never introduces a character: every character of the result
      is a character of the input, and the result is no longer. */
  lemma {:induction false} RemoveAllShrinks(s: string, p: string)
    requires p != []
    ensures |RemoveAll(s, p)| <= |s|
    ensures forall c :: c in RemoveAll(s, p) ==> c in s
    decreases |s|
  {
    if |s| < |p| {
    } else if s[..|p|] == p {
      RemoveAllShrinks(s[|p|..], p);
    } else {
      RemoveAllShrinks(s[1..], p);
    }
  }

  /** Text in which p does not occur is returned unchanged. */
  lemma {:induction false} RemoveAllAbsent(s: string, p: string)
    requires p != []
    requires !Occurs(p, s)
    ensures RemoveAll(s, p) == s
    decreases |s|
  {
    if |s| < |p| {
    } else {
      assert !OccursAt(p, s, 0);
      assert s[0..|p|] == s[..|p|];
      assert !Occurs(p, s[1..]) by {
        forall i | 0 <= i && i + |p| <= |s[1..]|
          ensures !OccursAt(p, s[1..], i)
        {
          assert !OccursAt(p, s, i + 1);
          assert s[1..][i..i + |p|] == s[i + 1..i + 1 + |p|];
        }
      }
      RemoveAllAbsent(s[1..], p);
      assert s == [s[0]] + s[1..];
    }
  }

  /** The result of BeforeSlash is a '/'-free prefix of its input, and it is
      all of the input exactly when the input has no '/'. */
  lemma {:induction false} BeforeSlashPrefix(s: string)
    ensures |BeforeSlash(s)| <= |s|
    ensures BeforeSlash(s) == s[..|BeforeSlash(s)|]
    ensures '/' !in BeforeSlash(s)
    ensures ('/' !in s) <==> BeforeSlash(s) == s
    decreases |s|
  {
    if s == [] || s[0] == '/' {
    } else {
      BeforeSlashPrefix(s[1..]);
      assert s == [s[0]] + s[1..];
    }
  }

  /** A '/'-free string contains neither scheme prefix. */
  lemma SlashFreeHasNoScheme(s: string)
    requires '/' !in s
    ensures !Occurs("https://", s) && !Occurs("http://", s)
  {
    forall i | 0 <= i && i + 8 <= |s| ensures !OccursAt("https://", s, i) {
      assert s[i..i + 8][6] == s[i + 6] != '/';
    }
    forall i | 0 <= i && i + 7 <= |s| ensures !OccursAt("http://", s, i) {
      assert s[i..i + 7][5] == s[i + 5] != '/';
    }
  }

  /** A pattern holding a character the text lacks cannot occur in it. */
  lemma MissingCharNoOccurrence(p: string, s: string, c: char)
    requires c in p && c !in s
    ensures !Occurs(p, s)
  {
    var k :| 0 <= k < |p| && p[k] == c;
    forall i | 0 <= i && i + |p| <= |s| ensures !OccursAt(p, s, i) {
      assert s[i..i + |p|][k] == s[i + k] != c;
    }
  }

  // ---------------------------------------------------------------------
  // Properties of NormalizeDomain

  /** The canonical key has no '/', no upper-case ASCII letter, hence no
      scheme, and is never longer than the raw text. */
  lemma NormalizeDomainShape(raw: string)
    ensures '/' !in NormalizeDomain(raw)
    ensures forall c :: c in NormalizeDomain(raw) ==> !IsUpper(c)
    ensures !Occurs("https://", NormalizeDomain(raw))
    ensures !Occurs("http://", NormalizeDomain(raw))
    ensures |NormalizeDomain(raw)| <= |raw|
  {
    var lowered := Lower(raw);
    var a := RemoveAll(lowered, "https://");
    var b := RemoveAll(a, "http://");
    var c := RemoveAll(b, "www.");
    RemoveAllShrinks(lowered, "https://");
    RemoveAllShrinks(a, "http://");
    RemoveAllShrinks(b, "www.");
    BeforeSlashPrefix(c);
    var r := BeforeSlash(c);
    assert r == NormalizeDomain(raw);
    forall ch | ch in r ensures !IsUpper(ch) {
      assert ch in c;
      var i :| 0 <= i < |lowered| && lowered[i] == ch;
    }
    SlashFreeHasNoScheme(r);
  }

  /** Text that is already canonical (lower case, no '/', no "www.") is
      its own key. */
  lemma NormalizeDomainKeepsCanonical(s: string)
    requires forall c :: c in s ==> !IsUpper(c)
    requires '/' !in s
    requires !Occurs("www.", s)
    ensures NormalizeDomain(s) == s
  {
    assert Lower(s) == s;
    SlashFreeHasNoScheme(s);
    RemoveAllAbsent(s, "https://");
    RemoveAllAbsent(s, "http://");
    RemoveAllAbsent(s, "www.");
    BeforeSlashPrefix(s);
  }

  /** The worked example https://WWW.Example.COM/path?x=1, written in its
      four parts: scheme, "www.", case and path are all dropped. */
  lemma NormalizeDomainExample()
    ensures NormalizeDomain("https://" + "WWW." + "Example.COM" + "/path?x=1") == "example.com"
  {
    ExampleLowered();
    ExampleParts();
    MissingCharNoOccurrence("https://", "www." + ("example.com" + "/path?x=1"), ':');
    MissingCharNoOccurrence("http://", "www." + ("example.com" + "/path?x=1"), ':');
    MissingCharNoOccurrence("www.", "example.com" + "/path?x=1", 'w');
    LeadingSchemeGone("www." + ("example.com" + "/path?x=1"));
    LeadingWwwGone("example.com" + "/path?x=1");
    BeforeSlashOfConcat("example.com", "/path?x=1");
  }

  /** The characters of the example that decide each deletion step. */
  lemma ExampleParts()
    ensures "https://" + "www." + "example.com" + "/path?x=1"
         == "https://" + ("www." + ("example.com" + "/path?x=1"))
    ensures ':' !in "www." + ("example.com" + "/path?x=1")
    ensures 'w' !in "example.com" + "/path?x=1"
    ensures '/' !in "example.com"
  {
  }

  /** A leading https:// is the only scheme deleted when the rest holds
      neither scheme. */
  lemma LeadingSchemeGone(rest: string)
    requires !Occurs("https://", rest) && !Occurs("http://", rest)
    ensures RemoveAll(RemoveAll("https://" + rest, "https://"), "http://") == rest
  {
    RemoveAllLeading("https://", rest);
    RemoveAllAbsent(rest, "https://");
    RemoveAllAbsent(rest, "http://");
  }

  /** A leading www. is the only one deleted when the rest holds no www. */
  lemma LeadingWwwGone(rest: string)
    requires !Occurs("www.", rest)
    ensures RemoveAll("www." + rest, "www.") == rest
  {
    RemoveAllLeading("www.", rest);
    RemoveAllAbsent(rest, "www.");
  }

  lemma ExampleLowered()
    ensures Lower("https://" + "WWW." + "Example.COM" + "/path?x=1")
         == "https://" + "www." + "example.com" + "/path?x=1"
  {
    LowerConcat("https://" + "WWW." + "Example.COM", "/path?x=1");
    LowerConcat("https://" + "WWW.", "Example.COM");
    LowerConcat("https://", "WWW.");
    ExamplePiecesLowered();
  }

  /** Each of the four parts of the example, lower-cased on its own. */
  lemma ExamplePiecesLowered()
    ensures Lower("https://") == "https://"
    ensures Lower("WWW.") == "www."
    ensures Lower("Example.COM") == "example.com"
    ensures Lower("/path?x=1") == "/path?x=1"
  {
    assert Lower("WWW.")[0] == 'w';
  }

  /** Lower-casing works piece by piece. */
  lemma LowerConcat(a: string, b: string)
    ensures Lower(a + b) == Lower(a) + Lower(b)
  {
  }

  /** A leading occurrence of p is the first thing deleted. */
  lemma RemoveAllLeading(p: string, x: string)
    requires p != []
    ensures RemoveAll(p + x, p) == RemoveAll(x, p)
  {
    assert (p + x)[..|p|] == p && (p + x)[|p|..] == x;
  }

  /** Because every occurrence is deleted in a single pass, deletion can
      splice a new "www." together: the function is not idempotent. */
  lemma NormalizeDomainNotIdempotent()
    ensures NormalizeDomain("wwwww.w.") == "www."
    ensures NormalizeDomain("www.") == ""
    ensures NormalizeDomain(NormalizeDomain("wwwww.w.")) != NormalizeDomain("wwwww.w.")
  {
    SchemeFree("wwwww.w.");
    SplicedWww();
    BeforeSlashPrefix("www.");
    SchemeFree("www.");
    WwwAlone();
  }

  /** Deleting "www." from "wwwww.w." leaves "ww" + "w.", a fresh "www.". */
  lemma SplicedWww()
    ensures RemoveAll("wwwww.w.", "www.") == "www."
  {
    var s := "wwwww.w.";
    assert s[..4][3] == 'w' && s[1..][..4][3] == 'w';
    assert s[1..][1..] == s[2..] && s[2..][..4] == "www." && s[2..][4..] == "w.";
    assert RemoveAll(s[2..], "www.") == "w.";
    assert RemoveAll(s[1..], "www.") == "w" + RemoveAll(s[2..], "www.");
  }

  lemma WwwAlone()
    ensures RemoveAll("www.", "www.") == ""
  {
    var s := "www.";
    assert s[..4] == "www." && s[4..] == "";
  }

  /** Lower-case text without ':' passes the two scheme deletions unchanged. */
  lemma SchemeFree(s: string)
    requires forall c :: c in s ==> !IsUpper(c)
    requires ':' !in s
    ensures RemoveAll(RemoveAll(Lower(s), "https://"), "http://") == s
  {
    MissingCharNoOccurrence("https://", s, ':');
    RemoveAllAbsent(s, "https://");
    MissingCharNoOccurrence("http://", s, ':');
    RemoveAllAbsent(s, "http://");
  }

  /** "www." is deleted wherever it occurs, not only as a leading label. */
  lemma NormalizeDomainDeletesInnerWww()
    ensures NormalizeDomain("a-www.io") == "a-io"
  {
    SchemeFree("a-www.io");
    InnerWww();
    BeforeSlashPrefix("a-io");
  }

  lemma InnerWww()
    ensures RemoveAll("a-www.io", "www.") == "a-io"
  {
    var s := "a-www.io";
    assert s[..4][0] == 'a' && s[1..][..4][0] == '-';
    assert s[1..][1..] == s[2..] && s[2..][..4] == "www." && s[2..][4..] == "io";
    assert RemoveAll(s[2..], "www.") == "io";
    assert RemoveAll(s[1..], "www.") == "-" + RemoveAll(s[2..], "www.");
  }

  /** The part before the first '/' of a '/'-free head followed by a path. */
  lemma {:induction false} BeforeSlashOfConcat(host: string, path: string)
    requires '/' !in host
    requires path != [] && path[0] == '/'
    ensures BeforeSlash(host + path) == host
    decreases |host|
  {
    if host == [] {
      assert host + path == path;
    } else {
      assert (host + path)[1..] == host[1..] + path;
      BeforeSlashOfConcat(host[1..], path);
    }
  }
}
