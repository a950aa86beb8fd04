/**
 * Property placeholders in a dependency's raw version text: the `${` marker that
 * makes a version "defined as a property", and the CI-friendly placeholders
 * `${revision}`, `${sha1}` and `${changelist}` that Maven 3.5 and later reserve.
 */
module Placeholders {

  /** `DEFINED_AS_PROPERTY_START`. */
  const PropertyStart: string := "${"

  /** The three alternatives of the pattern `VALUE_TO_CHECK`, `\$\{(revision|sha1|changelist)}`. */
  const Revision: string := "${revision}"
  const Sha1: string := "${sha1}"
  const Changelist: string := "${changelist}"

  predicate StartsWith(s: string, p: string) {
    |p| <= |s| && s[..|p|] == p
  }

  /** `s.contains(PROPERTY_START)`: a `$` immediately followed by `{` occurs in `s`. */
  predicate HasPropertyStart(s: string) {
    exists i :: 0 <= i < |s| - 1 && StartsAt(s, i)
  }

  /** `PROPERTY_START` occurs in `s` at index `i`. */
  predicate StartsAt(s: string, i: nat)
    requires i < |s| - 1
  {
    s[i] == PropertyStart[0] && s[i + 1] == PropertyStart[1]
  }

  /** The reserved placeholder that starts `s`, if any, as the number of characters it spans. */
  function ReservedPrefix(s: string): (n: nat)
    ensures n == 0 || (2 <= n <= |s| && s[0] == '$' && s[1] == '{')
  {
    if |s| < 2 || s[0] != '$' || s[1] != '{' then 0
    else ReservedName(s)
  }

  /** The length of the reserved placeholder that starts `s`, or 0 if none does. */
  function ReservedName(s: string): (n: nat)
    ensures n == 0 || n <= |s|
  {
    if StartsWith(s, Revision) then |Revision|
    else if StartsWith(s, Sha1) then |Sha1|
    else if StartsWith(s, Changelist) then |Changelist|
    else 0
  }

  /**
   * `s.replaceAll(VALUE_TO_CHECK, "")`: scanning left to right, each occurrence of a
   * reserved placeholder is dropped and scanning resumes after it; the text produced
   * by a removal is not scanned again.
   */
  function StripReserved(s: string): (r: string)
    ensures !HasPropertyStart(s) ==> r == s
    ensures |r| <= |s|
    decreases |s|
  {
    if s == [] then []
    else
      var n := ReservedPrefix(s);
      if n > 0 then
        assert StartsAt(s, 0);
        StripReserved(s[n..])
      else
        assert !HasPropertyStart(s) ==> !HasPropertyStart(s[1..]) by {
          if HasPropertyStart(s[1..]) {
            var i :| 0 <= i < |s[1..]| - 1 && StartsAt(s[1..], i);
            assert StartsAt(s, i + 1);
          }
        }
        [s[0]] + StripReserved(s[1..])
  }

  /** The text `addProblem` tests for `${`: the raw text, stripped of the reserved
      placeholders when the running Maven is at least `MAVEN_VERSION_35` ("3.5");
      `maven35` is the outcome of that version comparison. */
  function TextToCheck(raw: string, maven35: bool): (t: string)
    ensures !maven35 ==> t == raw
    ensures !HasPropertyStart(raw) ==> t == raw
    ensures |t| <= |raw|
  {
    if maven35 then StripReserved(raw) else raw
  }

  /** A version is taken as defined by a property when the text checked still holds `${`. */
  predicate DefinedAsProperty(raw: string, maven35: bool) {
    HasPropertyStart(TextToCheck(raw, maven35))
  }

  /** Stripping drops a reserved placeholder at the scan position. */
  lemma StripDropsReserved(t: string, s: string)
    requires t == Revision || t == Sha1 || t == Changelist
    ensures StripReserved(t + s) == StripReserved(s)
  {
    assert (t + s)[..|t|] == t;
    assert (t + s)[|t|..] == s;
    assert ReservedPrefix(t + s) == |t| by {
      if t == Sha1 {
        assert (t + s)[2] != Revision[2];
      } else if t == Changelist {
        assert (t + s)[2] != Revision[2] && (t + s)[2] != Sha1[2];
      }
    }
  }

  /** Stripping keeps a character that starts no reserved placeholder, `$` included, and
      goes on after it. */
  lemma StripKeeps(c: char, s: string)
    requires ReservedPrefix([c] + s) == 0
    ensures StripReserved([c] + s) == [c] + StripReserved(s)
  {
    assert ([c] + s)[0] == c;
    assert ([c] + s)[1..] == s;
  }

  /** No `$` occurs in `p`. */
  predicate Literal(p: string) {
    p == [] || (p[0] != '$' && Literal(p[1..]))
  }

  /** Text without `$` passes through stripping unchanged, and stripping goes on after it. */
  lemma {:induction false} StripLiteralPrefix(p: string, s: string)
    requires Literal(p)
    ensures StripReserved(p + s) == p + StripReserved(s)
  {
    if p == [] {
      Unconsed(p, s);
      Unconsed(p, StripReserved(s));
    } else {
      StripLiteralPrefix(p[1..], s);
      StripKeeps(p[0], p[1..] + s);
      Unconsed(p, s);
      Unconsed(p, StripReserved(s));
    }
  }

  /** `p + s` taken apart at the first character of `p`. */
  lemma Unconsed(p: string, s: string)
    ensures p == [] ==> p + s == s
    ensures p != [] ==> p + s == [p[0]] + (p[1..] + s)
  {
    if p != [] {
      assert p == [p[0]] + p[1..];
    }
  }

  /** Text without `$` holds no `${`. */
  lemma {:induction false} LiteralHasNoStart(p: string)
    requires Literal(p)
    ensures !HasPropertyStart(p)
  {
    if p != [] {
      LiteralHasNoStart(p[1..]);
      forall i | 0 <= i < |p| - 1
        ensures !StartsAt(p, i)
      {
        if i > 0 {
          assert p[i] == p[1..][i - 1] && p[i + 1] == p[1..][i];
          assert !StartsAt(p[1..], i - 1);
        }
      }
    }
  }

  /** A literal version followed by a reserved placeholder, as CI-friendly versions are
      written (`1.0-${changelist}`), is checked as the bare literal from Maven 3.5 on and
      so is not taken as defined by a property; below 3.5 it is. */
  lemma ReservedSuffixIsLiteral(p: string, t: string)
    requires Literal(p)
    requires t == Revision || t == Sha1 || t == Changelist
    ensures TextToCheck(p + t, true) == p
    ensures !DefinedAsProperty(p + t, true)
    ensures DefinedAsProperty(p + t, false)
  {
    StripLiteralPrefix(p, t);
    StripDropsReserved(t, []);
    assert t + [] == t;
    assert p + [] == p;
    LiteralHasNoStart(p);
    assert StartsAt(p + t, |p|);
  }

  /** `${name}` does not start with the reserved placeholder `${word}` when `name` is
      another name without a closing brace. */
  lemma OtherNameNotReserved(name: string, word: string)
    requires '}' !in name && name != word
    ensures !StartsWith("${" + name + "}", "${" + word + "}")
  {
    var v, t := "${" + name + "}", "${" + word + "}";
    var w := |word|;
    if w < |name| {
      assert v[w + 2] == name[w] != '}' == t[w + 2];
    } else if w == |name| {
      var k :| 0 <= k < w && name[k] != word[k];
      assert v[k + 2] == name[k] != word[k] == t[k + 2];
    }
  }

  /** The reserved placeholders are the property references to `revision`, `sha1` and `changelist`. */
  lemma ReservedNames()
    ensures Revision == "${" + "revision" + "}"
    ensures Sha1 == "${" + "sha1" + "}"
    ensures Changelist == "${" + "changelist" + "}"
  {
  }

  /** No reserved placeholder starts a reference to another property name. */
  lemma OtherNameNoReservedPrefix(name: string)
    requires '}' !in name
    requires name != "revision" && name != "sha1" && name != "changelist"
    ensures ReservedPrefix("${" + name + "}") == 0
  {
    ReservedNames();
    OtherNameNotReserved(name, "revision");
    OtherNameNotReserved(name, "sha1");
    OtherNameNotReserved(name, "changelist");
  }

  /** A property reference to any name other than the three reserved ones stays defined
      as a property whatever the Maven version. */
  lemma OrdinaryPropertyIsIndirect(name: string, maven35: bool)
    requires '}' !in name
    requires name != "revision" && name != "sha1" && name != "changelist"
    ensures DefinedAsProperty("${" + name + "}", maven35)
  {
    var v := "${" + name + "}";
    assert StartsAt(v, 0);
    if maven35 {
      OtherNameNoReservedPrefix(name);
      assert ReservedPrefix(v[1..]) == 0;
      assert v[1..][1..] == v[2..];
      var r := StripReserved(v);
      assert r == [v[0]] + StripReserved(v[1..]);
      assert StripReserved(v[1..]) == [v[1]] + StripReserved(v[2..]);
      assert StartsAt(r, 0);
    }
  }
}
