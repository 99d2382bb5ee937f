/**
 * Redaction of secret-looking entries from log payloads before they leave
 * the process. Keys are normalised (ASCII lower case, `-` and `_` removed)
 * and a key is sensitive when the normalised key contains a pattern.
 */
module Redaction {
  import opened Values

  /** The marker that replaces the value of a sensitive key. */
  const REDACTED: string := "[REDACTED]"

  /** The fixed pattern set. */
  const REDACT_PATTERNS: set<string> :=
    {"password", "secret", "token", "key", "api_key", "auth", "credential", "private"}

  /** ASCII lower-casing of one character. */
  function LowerChar(c: char): char
  {
    if 'A' <= c <= 'Z' then (c as int + 32) as char else c
  }

  function Lower(s: string): (r: string)
    ensures |r| == |s|
    ensures forall i :: 0 <= i < |s| ==> r[i] == LowerChar(s[i])
  {
    if s == [] then [] else [LowerChar(s[0])] + Lower(s[1..])
  }

  /** `s` with every occurrence of `c` deleted. */
  function Remove(s: string, c: char): (r: string)
    ensures c !in r
    ensures forall x :: x in r ==> x in s
    ensures |r| <= |s|
  {
    if s == [] then [] else (if s[0] == c then [] else [s[0]]) + Remove(s[1..], c)
  }

  /** The normalised form of a key: lower-cased, then `-` and `_` removed. */
  function NormalizeKey(k: string): (r: string)
    ensures '-' !in r && '_' !in r
    ensures forall c :: c in r ==> !('A' <= c <= 'Z')
    ensures |r| <= |k|
  {
    Remove(Remove(Lower(k), '-'), '_')
  }

  /** Substring test: `p in s` on strings. */
  predicate Contains(s: string, p: string)
    ensures Contains(s, p) ==> |p| <= |s| && forall c :: c in p ==> c in s
  {
    (|p| <= |s| && s[..|p|] == p) || (s != [] && Contains(s[1..], p))
  }

  /** A key is sensitive under `patterns` when its normalised form contains one of them. */
  predicate IsSensitive(patterns: set<string>, k: string)
    // only a pattern without separators and no longer than the key can match
    ensures IsSensitive(patterns, k) ==>
              exists p :: p in patterns && '-' !in p && '_' !in p && |p| <= |k|
  {
    exists p :: p in patterns && Contains(NormalizeKey(k), p)
  }

  /** Redaction with the fixed pattern set. */
  function Redact(v: Value): Value
  {
    RedactWith(REDACT_PATTERNS, v)
  }

  /**
   * A dictionary has each entry redacted; any other value is returned as it is.
   */
  function RedactWith(patterns: set<string>, v: Value): (r: Value)
    decreases v, 2
    ensures !v.Dict? ==> r == v
    ensures v.Dict? ==> r.Dict? && KeysOf(r.entries) == KeysOf(v.entries)
  {
    match v
    case Dict(es) => Dict(RedactEntries(patterns, es))
    case _ => v
  }

  function RedactEntries(patterns: set<string>, es: seq<(string, Value)>): (r: seq<(string, Value)>)
    decreases es, 1
    ensures KeysOf(r) == KeysOf(es)
  {
    if es == [] then [] else [RedactEntry(patterns, es[0])] + RedactEntries(patterns, es[1..])
  }

  /**
   * One entry: a sensitive key gets the marker whatever its value (a
   * dictionary included); otherwise a dictionary is redacted, a list has its
   * dictionary elements redacted, and any other value is kept.
   */
  function RedactEntry(patterns: set<string>, e: (string, Value)): (r: (string, Value))
    decreases e, 3
    ensures r.0 == e.0
    ensures IsSensitive(patterns, e.0) ==> r.1 == Str(REDACTED)
    ensures !IsSensitive(patterns, e.0) && e.1.Dict? ==>
              r.1.Dict? && KeysOf(r.1.entries) == KeysOf(e.1.entries)
    ensures !IsSensitive(patterns, e.0) && e.1.List? ==> r.1.List? && |r.1.items| == |e.1.items|
    ensures !IsSensitive(patterns, e.0) && !e.1.Dict? && !e.1.List? ==> r.1 == e.1
  {
    (e.0,
     if IsSensitive(patterns, e.0) then Str(REDACTED)
     else match e.1
       case Dict(_) => RedactWith(patterns, e.1)
       case List(items) => List(RedactItems(patterns, items))
       case _ => e.1)
  }

  /** Elements of a list: dictionaries are redacted, everything else (nested lists too) is kept. */
  function RedactItems(patterns: set<string>, items: seq<Value>): (r: seq<Value>)
    decreases items, 1
    ensures |r| == |items|
  {
    if items == [] then []
    else [if items[0].Dict? then RedactWith(patterns, items[0]) else items[0]] + RedactItems(patterns, items[1..])
  }

  /**
   * The value found at entry `i` of a redacted dictionary, case by case: the
   * marker for a sensitive key, the redacted dictionary for a dictionary, the
   * element-wise redacted list for a list, the value itself otherwise.
   */
  lemma {:induction false} RedactedEntryAt(patterns: set<string>, es: seq<(string, Value)>, i: nat)
    requires i < |es|
    ensures |RedactEntries(patterns, es)| == |es|
    ensures RedactEntries(patterns, es)[i].0 == es[i].0
    ensures IsSensitive(patterns, es[i].0) ==> RedactEntries(patterns, es)[i].1 == Str(REDACTED)
    ensures !IsSensitive(patterns, es[i].0) && es[i].1.Dict? ==>
              RedactEntries(patterns, es)[i].1 == RedactWith(patterns, es[i].1)
    ensures !IsSensitive(patterns, es[i].0) && es[i].1.List? ==>
              RedactEntries(patterns, es)[i].1 == List(RedactItems(patterns, es[i].1.items))
    ensures !IsSensitive(patterns, es[i].0) && !es[i].1.Dict? && !es[i].1.List? ==>
              RedactEntries(patterns, es)[i].1 == es[i].1
  {
    if i > 0 {
      RedactedEntryAt(patterns, es[1..], i - 1);
    }
  }

  /** A redacted list keeps its length and order; dictionary elements are redacted, the rest kept. */
  lemma {:induction false} RedactedItemAt(patterns: set<string>, items: seq<Value>, j: nat)
    requires j < |items|
    ensures |RedactItems(patterns, items)| == |items|
    ensures items[j].Dict? ==> RedactItems(patterns, items)[j] == RedactWith(patterns, items[j])
    ensures !items[j].Dict? ==> RedactItems(patterns, items)[j] == items[j]
  {
    if j > 0 {
      RedactedItemAt(patterns, items[1..], j - 1);
    }
  }

  /** Redacting twice is redacting once. */
  lemma {:induction false} RedactIdempotent(patterns: set<string>, v: Value)
    decreases v, 2
    ensures RedactWith(patterns, RedactWith(patterns, v)) == RedactWith(patterns, v)
  {
    match v
    case Dict(es) => EntriesIdempotent(patterns, es);
    case _ =>
  }

  lemma {:induction false} EntriesIdempotent(patterns: set<string>, es: seq<(string, Value)>)
    decreases es, 1
    ensures RedactEntries(patterns, RedactEntries(patterns, es)) == RedactEntries(patterns, es)
  {
    if es != [] {
      var r := RedactEntries(patterns, es);
      assert r[0] == RedactEntry(patterns, es[0]);
      assert r[1..] == RedactEntries(patterns, es[1..]);
      EntryIdempotent(patterns, es[0]);
      EntriesIdempotent(patterns, es[1..]);
    }
  }

  lemma {:induction false} EntryIdempotent(patterns: set<string>, e: (string, Value))
    decreases e, 3
    ensures RedactEntry(patterns, RedactEntry(patterns, e)) == RedactEntry(patterns, e)
  {
    if !IsSensitive(patterns, e.0) {
      match e.1
      case Dict(_) => RedactIdempotent(patterns, e.1);
      case List(items) => ItemsIdempotent(patterns, items);
      case _ =>
    }
  }

  lemma {:induction false} ItemsIdempotent(patterns: set<string>, items: seq<Value>)
    decreases items, 1
    ensures RedactItems(patterns, RedactItems(patterns, items)) == RedactItems(patterns, items)
  {
    if items != [] {
      var r := RedactItems(patterns, items);
      assert r[1..] == RedactItems(patterns, items[1..]);
      if items[0].Dict? {
        RedactIdempotent(patterns, items[0]);
      }
      ItemsIdempotent(patterns, items[1..]);
    }
  }

  /** Two pattern sets that classify every key alike redact every value alike. */
  lemma {:induction false} RedactAgrees(p: set<string>, q: set<string>, v: Value)
    requires forall k :: IsSensitive(p, k) == IsSensitive(q, k)
    decreases v, 2
    ensures RedactWith(p, v) == RedactWith(q, v)
  {
    match v
    case Dict(es) => EntriesAgree(p, q, es);
    case _ =>
  }

  lemma {:induction false} EntriesAgree(p: set<string>, q: set<string>, es: seq<(string, Value)>)
    requires forall k :: IsSensitive(p, k) == IsSensitive(q, k)
    decreases es, 1
    ensures RedactEntries(p, es) == RedactEntries(q, es)
  {
    if es != [] {
      EntryAgrees(p, q, es[0]);
      EntriesAgree(p, q, es[1..]);
    }
  }

  lemma {:induction false} EntryAgrees(p: set<string>, q: set<string>, e: (string, Value))
    requires forall k :: IsSensitive(p, k) == IsSensitive(q, k)
    decreases e, 3
    ensures RedactEntry(p, e) == RedactEntry(q, e)
  {
    match e.1
    case Dict(_) => RedactAgrees(p, q, e.1);
    case List(items) => ItemsAgree(p, q, items);
    case _ =>
  }

  lemma {:induction false} ItemsAgree(p: set<string>, q: set<string>, items: seq<Value>)
    requires forall k :: IsSensitive(p, k) == IsSensitive(q, k)
    decreases items, 1
    ensures RedactItems(p, items) == RedactItems(q, items)
  {
    if items != [] {
      if items[0].Dict? {
        RedactAgrees(p, q, items[0]);
      }
      ItemsAgree(p, q, items[1..]);
    }
  }

  /** A pattern holding a character that `s` lacks is never found in `s`. */
  lemma {:induction false} MissingCharNeverContained(s: string, p: string, c: char)
    requires c in p && c !in s
    ensures !Contains(s, p)
  {
    if s != [] {
      assert forall x :: x in s[1..] ==> x in s;
      MissingCharNeverContained(s[1..], p, c);
    }
  }

  /** A pattern is found wherever it occurs. */
  lemma {:induction false} ContainsInfix(a: string, p: string, b: string)
    ensures Contains(a + p + b, p)
  {
    if a == [] {
      assert (a + p + b)[..|p|] == p;
    } else {
      assert (a + p + b)[1..] == a[1..] + p + b;
      ContainsInfix(a[1..], p, b);
    }
  }

  /** `p` occurs in `s` at position `i`. */
  predicate OccursAt(s: string, p: string, i: int)
  {
    0 <= i && i + |p| <= |s| && s[i..i + |p|] == p
  }

  /** `Contains(s, p)` holds exactly when `p` occurs in `s` at some position. */
  lemma ContainsAt(s: string, p: string)
    ensures Contains(s, p) <==> exists i :: OccursAt(s, p, i)
  {
    if Contains(s, p) {
      var i := ContainsFound(s, p);
    }
    if exists i :: OccursAt(s, p, i) {
      var i :| OccursAt(s, p, i);
      FoundContains(s, p, i);
    }
  }

  /** Where `Contains` holds, it finds a position of `p` in `s`. */
  lemma {:induction false} ContainsFound(s: string, p: string) returns (i: nat)
    requires Contains(s, p)
    ensures OccursAt(s, p, i)
  {
    if |p| <= |s| && s[..|p|] == p {
      i := 0;
    } else {
      var j := ContainsFound(s[1..], p);
      assert s[1..][j..j + |p|] == s[j + 1..j + 1 + |p|];
      i := j + 1;
    }
  }

  /** `Contains` finds `p` wherever it occurs in `s`. */
  lemma {:induction false} FoundContains(s: string, p: string, i: nat)
    requires OccursAt(s, p, i)
    ensures Contains(s, p)
  {
    if i > 0 {
      assert s[1..][i - 1..i - 1 + |p|] == s[i..i + |p|];
      FoundContains(s[1..], p, i - 1);
    } else {
      assert s[..|p|] == p;
    }
  }

  /**
   * The classification rule, both ways: a key is sensitive exactly when
   * some pattern occurs in its normalised form.
   */
  lemma SensitiveIffOccurs(patterns: set<string>, k: string)
    ensures IsSensitive(patterns, k) <==> exists p, i :: p in patterns && OccursAt(NormalizeKey(k), p, i)
  {
    var n := NormalizeKey(k);
    forall p
      ensures Contains(n, p) <==> exists i :: OccursAt(n, p, i)
    {
      ContainsAt(n, p);
    }
  }

  lemma {:induction false} RemoveAbsent(s: string, c: char)
    requires c !in s
    ensures Remove(s, c) == s
  {
    if s != [] {
      assert c !in s[1..];
      RemoveAbsent(s[1..], c);
    }
  }

  lemma {:induction false} RemoveConcat(a: string, b: string, c: char)
    ensures Remove(a + b, c) == Remove(a, c) + Remove(b, c)
  {
    if a == [] {
      assert a + b == b;
    } else {
      assert (a + b)[0] == a[0] && (a + b)[1..] == a[1..] + b;
      RemoveConcat(a[1..], b, c);
    }
  }

  /** Deleting the separator `c` from `a c b` leaves `a b` when neither part holds it. */
  lemma RemoveSeparator(a: string, b: string, c: char)
    requires c !in a && c !in b
    ensures Remove(a + [c] + b, c) == a + b
  {
    var ac := a + [c];
    assert a + [c] + b == ac + b;
    RemoveConcat(ac, b, c);
    RemoveConcat(a, [c], c);
    RemoveOnly(c);
    RemoveAbsent(a, c);
    RemoveAbsent(b, c);
    assert Remove(ac, c) == a;
  }

  lemma RemoveOnly(c: char)
    ensures Remove([c], c) == []
  {
    assert [c][1..] == [];
  }

  /** A character other than `c` that neither part holds is not in `a c b`. */
  lemma AbsentFromJoin(a: string, b: string, c: char, d: char)
    requires d != c && d !in a && d !in b
    ensures d !in a + [c] + b
  {
    assert forall x :: x in a + [c] + b ==> x in a || x == c || x in b;
  }

  /** A key that lower-cases to `a_b`, with `a` and `b` free of separators, normalises to `ab`. */
  lemma NormalizeJoined(k: string, a: string, b: string)
    requires Lower(k) == a + ['_'] + b
    requires '-' !in a && '-' !in b && '_' !in a && '_' !in b
    ensures NormalizeKey(k) == a + b
  {
    AbsentFromJoin(a, b, '_', '-');
    RemoveAbsent(Lower(k), '-');
    RemoveSeparator(a, b, '_');
  }

  /** Deleting `c` keeps every other character, as often as it occurs. */
  lemma {:induction false} RemoveCounts(s: string, c: char)
    ensures multiset(Remove(s, c)) == multiset(s)[c := 0]
  {
    if s != [] {
      assert s == [s[0]] + s[1..];
      RemoveCounts(s[1..], c);
    }
  }

  /** Normalisation keeps every character of the key but the separators, lower-cased. */
  lemma NormalizeKeeps(k: string)
    ensures multiset(NormalizeKey(k)) == multiset(Lower(k))['-' := 0]['_' := 0]
  {
    RemoveCounts(Lower(k), '-');
    RemoveCounts(Remove(Lower(k), '-'), '_');
  }

  /** Lower-casing works character by character. */
  lemma LowerConcat(a: string, b: string)
    ensures Lower(a + b) == Lower(a) + Lower(b)
  {
    assert forall i :: 0 <= i < |a + b| ==> Lower(a + b)[i] == (Lower(a) + Lower(b))[i];
  }

  /**
   * Normalisation works character by character: a key splits into parts
   * that normalise separately, and one character is dropped when it is a
   * separator and lower-cased otherwise.
   */
  lemma NormalizeConcat(a: string, b: string)
    ensures NormalizeKey(a + b) == NormalizeKey(a) + NormalizeKey(b)
  {
    LowerConcat(a, b);
    RemoveConcat(Lower(a), Lower(b), '-');
    RemoveConcat(Remove(Lower(a), '-'), Remove(Lower(b), '-'), '_');
  }

  lemma NormalizeChar(c: char)
    ensures NormalizeKey([c]) == if c == '-' || c == '_' then [] else [LowerChar(c)]
  {
    assert Lower([c]) == [LowerChar(c)];
    assert [LowerChar(c)][1..] == [];
    if c != '-' {
      assert Remove([LowerChar(c)], '-') == [LowerChar(c)];
    }
  }

  /** A string without upper-case ASCII letters is its own lower-case form. */
  lemma LowerAlready(s: string)
    requires forall i :: 0 <= i < |s| ==> !('A' <= s[i] <= 'Z')
    ensures Lower(s) == s
  {
  }

  /** A key whose normalised form is `a + p + b` for a pattern `p` is sensitive. */
  lemma SensitiveByInfix(k: string, a: string, p: string, b: string)
    requires p in REDACT_PATTERNS && NormalizeKey(k) == a + p + b
    ensures IsSensitive(REDACT_PATTERNS, k)
  {
    ContainsInfix(a, p, b);
  }

  /** A key that lower-cases to `p`, free of separators, normalises to `p`. */
  lemma NormalizePlain(k: string, p: string)
    requires Lower(k) == p && '-' !in p && '_' !in p
    ensures NormalizeKey(k) == p
  {
    RemoveAbsent(p, '-');
    RemoveAbsent(p, '_');
  }

  /** A key that lower-cases to a pattern without separators is sensitive. */
  lemma PlainKeySensitive(k: string, p: string)
    requires Lower(k) == p && '-' !in p && '_' !in p
    requires p in REDACT_PATTERNS
    ensures IsSensitive(REDACT_PATTERNS, k)
  {
    NormalizePlain(k, p);
    ContainsSelf(p);
  }

  lemma ContainsSelf(p: string)
    ensures Contains(p, p)
  {
    assert p[..|p|] == p;
  }

  /**
   * A key that lower-cases to `a_b`, with separator-free parts one of which
   * is a pattern, is sensitive.
   */
  lemma JoinedKeySensitive(k: string, a: string, b: string)
    requires Lower(k) == a + ['_'] + b
    requires '-' !in a && '-' !in b && '_' !in a && '_' !in b
    requires a in REDACT_PATTERNS || b in REDACT_PATTERNS
    ensures IsSensitive(REDACT_PATTERNS, k)
  {
    NormalizeJoined(k, a, b);
    if b in REDACT_PATTERNS {
      SensitiveByInfix(k, a, b, []);
    } else {
      SensitiveByInfix(k, [], a, b);
    }
  }

  /**
   * The keys the redaction is exercised with: `API_KEY`, `Password`,
   * `SECRET_TOKEN`, `api_key`, `password` and `token` are sensitive,
   * `normal_field` is not.
   */
  lemma SensitiveKeyExamples(k: string)
    ensures k in ["API_KEY", "Password", "SECRET_TOKEN", "api_key", "password", "token"] ==>
              IsSensitive(REDACT_PATTERNS, k)
    ensures k == "normal_field" ==> !IsSensitive(REDACT_PATTERNS, k)
  {
    if k == "API_KEY" || k == "api_key" {
      ApiKeySensitive(k);
    } else if k == "Password" || k == "password" {
      PasswordSensitive(k);
    } else if k == "SECRET_TOKEN" {
      SecretTokenSensitive(k);
    } else if k == "token" {
      TokenSensitive(k);
    } else if k == "normal_field" {
      NormalFieldNotSensitive(k);
    }
  }

  // One lemma per example key follows. As in the key lemmas of the trace
  // module, literals are passed to small helpers as parameters pinned by a
  // `requires`, so that each proof obligation unfolds as few string literals
  // as possible (lower-casing, separator removal and pattern membership are
  // each established on their own).

  lemma ApiKeySensitive(k: string)
    requires k == "API_KEY" || k == "api_key"
    ensures IsSensitive(REDACT_PATTERNS, k)
  {
    ApiKeyParts(k, "api", "key");
    PatternsListed("password", "secret", "token", "key", "auth");
    JoinedKeySensitive(k, "api", "key");
  }

  lemma ApiKeyParts(k: string, a: string, b: string)
    requires (k == "API_KEY" || k == "api_key") && a == "api" && b == "key"
    ensures Lower(k) == a + ['_'] + b
    ensures '-' !in a && '-' !in b && '_' !in a && '_' !in b
  {
  }

  lemma PasswordSensitive(k: string)
    requires k == "Password" || k == "password"
    ensures IsSensitive(REDACT_PATTERNS, k)
  {
    PasswordParts(k, "password");
    SeparatorFree("password");
    PatternsListed("password", "secret", "token", "key", "auth");
    PlainKeySensitive(k, "password");
  }

  lemma PasswordParts(k: string, p: string)
    requires (k == "Password" || k == "password") && p == "password"
    ensures Lower(k) == p
  {
  }

  lemma SecretTokenSensitive(k: string)
    requires k == "SECRET_TOKEN"
    ensures IsSensitive(REDACT_PATTERNS, k)
  {
    SecretTokenParts(k, "secret", "token");
    SeparatorFree("secret");
    SeparatorFree("token");
    PatternsListed("password", "secret", "token", "key", "auth");
    JoinedKeySensitive(k, "secret", "token");
  }

  lemma SecretTokenParts(k: string, a: string, b: string)
    requires k == "SECRET_TOKEN" && a == "secret" && b == "token"
    ensures Lower(k) == a + ['_'] + b
  {
  }

  /** Lower-case words hold no separator. */
  lemma SeparatorFree(w: string)
    requires forall i :: 0 <= i < |w| ==> 'a' <= w[i] <= 'z'
    ensures '-' !in w && '_' !in w
  {
  }

  lemma TokenSensitive(k: string)
    requires k == "token"
    ensures IsSensitive(REDACT_PATTERNS, k)
  {
    TokenParts(k);
    PatternsListed("password", "secret", "token", "key", "auth");
    PlainKeySensitive(k, k);
  }

  lemma AuthSensitive(k: string)
    requires k == "auth"
    ensures IsSensitive(REDACT_PATTERNS, k)
  {
    AuthParts(k);
    PatternsListed("password", "secret", "token", "key", "auth");
    PlainKeySensitive(k, k);
  }

  lemma TokenParts(k: string)
    requires k == "token"
    ensures Lower(k) == k && '-' !in k && '_' !in k
  {
  }

  lemma AuthParts(k: string)
    requires k == "auth"
    ensures Lower(k) == k && '-' !in k && '_' !in k
  {
  }

  /** Five of the eight patterns, by name. */
  lemma PatternsListed(password: string, secret: string, token: string, key: string, auth: string)
    requires password == "password" && secret == "secret" && token == "token" && key == "key" && auth == "auth"
    ensures password in REDACT_PATTERNS && secret in REDACT_PATTERNS && token in REDACT_PATTERNS
    ensures key in REDACT_PATTERNS && auth in REDACT_PATTERNS
  {
  }

  lemma NormalFieldNotSensitive(k: string)
    requires k == "normal_field"
    ensures !IsSensitive(REDACT_PATTERNS, k)
  {
    NormalFieldParts(k, "normal", "field");
    SeparatorFree("normal");
    SeparatorFree("field");
    NormalFieldLetters("normal", "field");
    NormalizeJoined(k, "normal", "field");
    NoPatternContained(NormalizeKey(k));
  }

  lemma NormalFieldParts(k: string, a: string, b: string)
    requires k == "normal_field" && a == "normal" && b == "field"
    ensures Lower(k) == a + ['_'] + b
  {
  }

  lemma NormalFieldLetters(a: string, b: string)
    requires a == "normal" && b == "field"
    ensures 'p' !in a + b && 's' !in a + b && 't' !in a + b && 'k' !in a + b && 'c' !in a + b
  {
  }

  /**
   * A normalised key lacking the letters p, s and k, and either t and c or
   * u and r, contains no pattern: every pattern holds one of those letters.
   */
  lemma NoPatternContained(n: string)
    requires 'p' !in n && 's' !in n && 'k' !in n
    requires ('t' !in n && 'c' !in n) || ('u' !in n && 'r' !in n)
    ensures forall p :: p in REDACT_PATTERNS ==> !Contains(n, p)
  {
    NoPskPattern(n);
    NoAuthPattern(n);
  }

  lemma NoPskPattern(n: string)
    requires 'p' !in n && 's' !in n && 'k' !in n
    ensures !Contains(n, "password") && !Contains(n, "secret") && !Contains(n, "token")
    ensures !Contains(n, "key") && !Contains(n, "api_key") && !Contains(n, "private")
  {
    MissingCharNeverContained(n, "password", 'p');
    MissingCharNeverContained(n, "secret", 's');
    MissingCharNeverContained(n, "token", 'k');
    MissingCharNeverContained(n, "key", 'k');
    MissingCharNeverContained(n, "api_key", 'k');
    MissingCharNeverContained(n, "private", 'p');
  }

  lemma NoAuthPattern(n: string)
    requires ('t' !in n && 'c' !in n) || ('u' !in n && 'r' !in n)
    ensures !Contains(n, "auth") && !Contains(n, "credential")
  {
    if 't' !in n && 'c' !in n {
      MissingCharNeverContained(n, "auth", 't');
      MissingCharNeverContained(n, "credential", 'c');
    } else {
      MissingCharNeverContained(n, "auth", 'u');
      MissingCharNeverContained(n, "credential", 'r');
    }
  }

  /** A lower-case key without separators and without the letters p, s, t, k and c is not sensitive. */
  lemma PlainKeyNotSensitive(k: string)
    requires forall i :: 0 <= i < |k| ==> !('A' <= k[i] <= 'Z')
    requires '-' !in k && '_' !in k
    requires 'p' !in k && 's' !in k && 't' !in k && 'k' !in k && 'c' !in k
    ensures !IsSensitive(REDACT_PATTERNS, k)
  {
    LowerAlready(k);
    NormalizePlain(k, k);
    NoPatternContained(k);
  }

  /** `context` is not sensitive, though it shares letters with several patterns. */
  lemma ContextNotSensitive(k: string)
    requires k == "context"
    ensures !IsSensitive(REDACT_PATTERNS, k)
  {
    ContextParts(k);
    LowerAlready(k);
    NormalizePlain(k, k);
    NoPatternContained(k);
  }

  lemma ContextParts(k: string)
    requires k == "context"
    ensures forall i :: 0 <= i < |k| ==> !('A' <= k[i] <= 'Z')
    ensures '-' !in k && '_' !in k
    ensures 'p' !in k && 's' !in k && 'k' !in k && 'u' !in k && 'r' !in k
  {
  }

  /**
   * A nested log: under a key that is not sensitive, whatever a sensitive
   * key holds (a dictionary of credentials and a user name, say) is replaced
   * as a whole by the marker, while a dictionary under a key that is not
   * sensitive is kept entry by entry.
   */
  lemma NestedLogRedaction(outer: string, secretKey: string, plainKey: string, leafKey: string,
                           secrets: Value, data: string)
    requires !IsSensitive(REDACT_PATTERNS, outer) && IsSensitive(REDACT_PATTERNS, secretKey)
    requires !IsSensitive(REDACT_PATTERNS, plainKey) && !IsSensitive(REDACT_PATTERNS, leafKey)
    ensures Redact(Dict([(outer, Dict([(secretKey, secrets), (plainKey, Dict([(leafKey, Str(data))]))]))]))
            == Dict([(outer, Dict([(secretKey, Str(REDACTED)), (plainKey, Dict([(leafKey, Str(data))]))]))])
  {
    var P := REDACT_PATTERNS;
    var leaf := Dict([(leafKey, Str(data))]);
    var inner := [(secretKey, secrets), (plainKey, leaf)];
    assert RedactEntry(P, (leafKey, Str(data))) == (leafKey, Str(data));
    assert RedactEntries(P, [(leafKey, Str(data))]) == [(leafKey, Str(data))];
    assert RedactEntry(P, (plainKey, leaf)) == (plainKey, leaf);
    assert RedactEntry(P, (secretKey, secrets)) == (secretKey, Str(REDACTED));
    assert inner[1..] == [(plainKey, leaf)];
    assert RedactEntries(P, inner) == [(secretKey, Str(REDACTED)), (plainKey, leaf)];
    var top := (outer, Dict(inner));
    assert RedactEntry(P, top) == (outer, Dict([(secretKey, Str(REDACTED)), (plainKey, leaf)]));
    assert RedactEntries(P, [top]) == [RedactEntry(P, top)];
  }

  /**
   * The keys of the nested log the redaction is exercised with: `auth` is
   * sensitive; `context`, `normal` and `value` are not.
   */
  lemma NestedLogKeys(context: string, auth: string, normal: string, value: string)
    requires context == "context" && auth == "auth" && normal == "normal" && value == "value"
    ensures !IsSensitive(REDACT_PATTERNS, context) && IsSensitive(REDACT_PATTERNS, auth)
    ensures !IsSensitive(REDACT_PATTERNS, normal) && !IsSensitive(REDACT_PATTERNS, value)
  {
    ContextNotSensitive(context);
    AuthSensitive(auth);
    PlainWordsNotSensitive(normal, value);
  }

  /** `normal` and `value` are not sensitive. */
  lemma PlainWordsNotSensitive(normal: string, value: string)
    requires normal == "normal" && value == "value"
    ensures !IsSensitive(REDACT_PATTERNS, normal) && !IsSensitive(REDACT_PATTERNS, value)
  {
    PlainKeyNotSensitive(normal);
    PlainKeyNotSensitive(value);
  }

  /**
   * The pattern "api_key" can never match, because normalisation strips
   * every `_`: dropping it from the pattern set changes no classification
   * and no redaction result.
   */
  lemma ApiKeyPatternIsDead(v: Value)
    ensures forall k :: IsSensitive(REDACT_PATTERNS, k) == IsSensitive(REDACT_PATTERNS - {"api_key"}, k)
    ensures Redact(v) == RedactWith(REDACT_PATTERNS - {"api_key"}, v)
  {
    forall k
      ensures IsSensitive(REDACT_PATTERNS, k) == IsSensitive(REDACT_PATTERNS - {"api_key"}, k)
    {
      if IsSensitive(REDACT_PATTERNS, k) {
        var p :| p in REDACT_PATTERNS && Contains(NormalizeKey(k), p);
        if p == "api_key" {
          MissingCharNeverContained(NormalizeKey(k), p, '_');
        }
      }
    }
    RedactAgrees(REDACT_PATTERNS, REDACT_PATTERNS - {"api_key"}, v);
  }
}
