/** Names of topics in the knowledge map: normalisation, classified names and their parts. */
module TopicNames {

  /** A topic is identified by its normalised name and context. */
  datatype Key = Key(name: string, context: string)

  function LowerChar(c: char): char {
    if 'A' <= c <= 'Z' then (c as int - 'A' as int + 'a' as int) as char else c
  }

  function Lower(s: string): (r: string)
    ensures |r| == |s| && forall i | 0 <= i < |s| :: r[i] == LowerChar(s[i])
  {
    seq(|s|, i requires 0 <= i < |s| => LowerChar(s[i]))
  }

  predicate IsSpecial(c: char) {
    c in "/\\&|=$@"
  }

  predicate HasSpecial(s: string) {
    exists i | 0 <= i < |s| :: IsSpecial(s[i])
  }

  /** `NormalizeTopic`: names with special characters keep their case. */
  function Normal(s: string): (r: string)
    ensures |r| == |s|
  {
    if HasSpecial(s) then s else Lower(s)
  }

  /** `NormalizeTopic` as written: a scan for the first special character. */
  method NormalizeTopic(s: string) returns (r: string)
    ensures r == Normal(s)
  {
    var special := false;
    var i := 0;
    while i < |s|
      invariant 0 <= i <= |s| && !special
      invariant forall j | 0 <= j < i :: !IsSpecial(s[j])
    {
      if IsSpecial(s[i]) {
        special := true;
        break;
      }
      i := i + 1;
    }
    r := if special then s else Lower(s);
  }

  /** The identity of the topic called `name` in `context`; an empty context means "any". */
  function KeyOf(name: string, context: string): Key {
    Key(Normal(name), if context == "" then "any" else Normal(context))
  }

  /** A name with one of the seven special characters is left alone; any other has its capitals lowered. */
  lemma {:induction false} NormalMeaning(s: string)
    ensures '/' in s || '\\' in s || '&' in s || '|' in s || '=' in s || '$' in s || '@' in s ==> Normal(s) == s
    ensures '/' !in s && '\\' !in s && '&' !in s && '|' !in s && '=' !in s && '$' !in s && '@' !in s ==>
              forall i | 0 <= i < |s| ::
                Normal(s)[i] == if 'A' <= s[i] <= 'Z' then (s[i] as int + 32) as char else s[i]
  {
    if c :| c in "/\\&|=$@" && c in s {
      var i :| 0 <= i < |s| && s[i] == c;
      assert IsSpecial(s[i]);
    } else {
      forall i | 0 <= i < |s| ensures !IsSpecial(s[i]) {
        assert s[i] in s;
      }
    }
  }

  /** The empty context is the context "any", and capitals make no difference in names without special characters. */
  lemma {:induction false} KeyMeaning(name: string, other: string, context: string)
    ensures KeyOf(name, "") == KeyOf(name, "any")
    ensures !HasSpecial(name) && !HasSpecial(other) && Lower(name) == Lower(other) ==>
              KeyOf(name, context) == KeyOf(other, context)
  {
    assert Lower("any") == "any" && !HasSpecial("any");
  }

  lemma {:induction false} LowerSpecial(s: string)
    ensures HasSpecial(Lower(s)) == HasSpecial(s)
  {
    if HasSpecial(s) {
      var i :| 0 <= i < |s| && IsSpecial(s[i]);
      assert IsSpecial(Lower(s)[i]);
    }
    if HasSpecial(Lower(s)) {
      var i :| 0 <= i < |s| && IsSpecial(Lower(s)[i]);
      assert IsSpecial(s[i]);
    }
  }

  lemma {:induction false} NormalTwice(s: string)
    ensures Normal(Normal(s)) == Normal(s)
  {
    LowerSpecial(s);
    assert Lower(Lower(s)) == Lower(s);
  }

  /** The hash slot, taken from the lower-cased name, does not depend on how the name is spelled. */
  lemma {:induction false} LowerNormal(s: string)
    ensures Lower(Normal(s)) == Lower(s)
  {
    assert Lower(Lower(s)) == Lower(s);
  }

  lemma {:induction false} NormalKeeps(s: string, c: char)
    requires c == ':' || c == '\n'
    ensures c in Normal(s) <==> c in s
  {
    var r := Normal(s);
    if c in s {
      var i :| 0 <= i < |s| && s[i] == c;
      assert r[i] == c;
    }
    if c in r {
      var i :| 0 <= i < |r| && r[i] == c;
      assert s[i] == c;
    }
  }

  // ---------------------------------------------------------------- classified names

  /** The characters before the first c. */
  function Upto(s: string, c: char): (r: string)
    ensures |r| <= |s| && r == s[..|r|] && c !in r
    ensures |r| < |s| ==> s[|r|] == c
  {
    if s == "" || s[0] == c then "" else [s[0]] + Upto(s[1..], c)
  }

  lemma {:induction false} UptoWhole(s: string, c: char, t: string)
    requires c !in s && (t == "" || t[0] == c)
    ensures Upto(s + t, c) == s
  {
    if s == "" {
      assert s + t == t;
    } else {
      assert (s + t)[1..] == s[1..] + t;
      UptoWhole(s[1..], c, t);
    }
  }

  predicate StartsWith(s: string, p: string) {
    p <= s
  }

  predicate Contains(s: string, p: string) {
    exists i | 0 <= i <= |s| :: p <= s[i..]
  }

  /** The topic part after a leading "::", if it is there. */
  function AfterColons(s: string): string {
    if StartsWith(s, "::") then Upto(s[2..], '\n') else ""
  }

  /** `DeClassifyTopic`: topic and context of a classified name such as "context::topic". */
  function DeClassify(s: string): (r: (string, string))
    ensures r.1 != "" && ':' !in r.1
  {
    if s != "" && s[0] == ':' then (AfterColons(s), "any")
    else if Contains(s, "::") then
      var context := Upto(s, ':');
      (AfterColons(s[|context|..]), if context == "" then "any" else context)
    else (s, "any")
  }

  /**
   A name split at its first ':'.  Before it is the context, "any" if that is
   empty; the topic is what follows a second ':' at once, up to a newline, and
   empty if none does.  A name with single colons only, none in front, is all topic.
   */
  lemma {:induction false} DeClassifyMeaning(c: string, t: string)
    requires ':' !in c
    ensures var s := c + (":" + t);
      DeClassify(s) == if c != "" && !Contains(s, "::") then (s, "any")
                       else (if ":" <= t then Upto(t[1..], '\n') else "", if c == "" then "any" else c)
    ensures DeClassify(c) == (c, "any")
  {
    var rest := ":" + t;
    var s := c + rest;
    UptoWhole(c, ':', rest);
    assert s[|c|..] == rest && rest[1..] == t;
    assert StartsWith(rest, "::") <==> ":" <= t;
    assert ":" <= t ==> rest[2..] == t[1..];
    if c == "" {
      assert s == rest;
    } else {
      assert c[0] in c;
    }
    NoColons(c);
  }

  lemma {:induction false} NoColons(c: string)
    requires ':' !in c
    ensures DeClassify(c) == (c, "any")
  {
    forall i | 0 <= i <= |c| ensures !("::" <= c[i..]) {
      assert i < |c| ==> c[i] in c;
    }
  }

  /** The topic a classified name refers to. */
  function Named(s: string): Key {
    KeyOf(DeClassify(s).0, DeClassify(s).1)
  }

  /** The classified name made from a context and a topic name. */
  function Classified(context: string, name: string): string {
    Normal(context) + "::" + Normal(name)
  }

  /** Names that survive being classified and declassified. */
  predicate WellFormed(name: string, context: string) {
    context != "" && ':' !in context && name != "" && '\n' !in name
  }

  /** A classified name is already in normal form. */
  lemma {:induction false} ClassifiedNormal(context: string, name: string)
    ensures Normal(Classified(context, name)) == Classified(context, name)
  {
    var c, n := Normal(context), Normal(name);
    var s := Classified(context, name);
    if !HasSpecial(s) {
      NotSpecialParts(c, "::" + n);
      NotSpecialParts("::", n);
      assert s == c + ("::" + n);
      NormalTwice(context);
      NormalTwice(name);
      assert Lower(c) == c && Lower(n) == n;
      assert Lower(s) == s;
    }
  }

  lemma {:induction false} NotSpecialParts(a: string, b: string)
    ensures HasSpecial(a) || HasSpecial(b) ==> HasSpecial(a + b)
  {
    if HasSpecial(a) {
      var i :| 0 <= i < |a| && IsSpecial(a[i]);
      assert IsSpecial((a + b)[i]);
    }
    if HasSpecial(b) {
      var i :| 0 <= i < |b| && IsSpecial(b[i]);
      assert IsSpecial((a + b)[|a| + i]);
    }
  }

  /** Declassifying what was classified gives back the topic. */
  lemma {:induction false} ClassifiedNamed(context: string, name: string)
    requires WellFormed(name, context)
    ensures Named(Classified(context, name)) == KeyOf(name, context)
  {
    var c, n := Normal(context), Normal(name);
    var s := Classified(context, name);
    NormalKeeps(context, ':');
    NormalKeeps(name, '\n');
    NormalTwice(context);
    NormalTwice(name);
    assert s == c + ("::" + n);
    assert ("::" + n)[2..] == n;
    UptoWhole(n, '\n', "");
    assert n + "" == n;
    assert s[0] == c[0] && c[0] in c;
    assert "::" <= s[|c|..];
    assert Contains(s, "::");
    UptoWhole(c, ':', "::" + n);
    assert s[|c|..] == "::" + n;
    assert AfterColons(s[|c|..]) == n;
  }

  /** Distinct topics have distinct classified names. */
  lemma {:induction false} ClassifiedInjective(context: string, name: string, classified: string)
    requires ':' !in context
    requires var (n, c) := DeClassify(classified); Classified(c, n) == Classified(context, name)
    ensures Named(classified) == KeyOf(name, context)
  {
    var (n, c) := DeClassify(classified);
    NormalKeeps(context, ':');
    NormalKeeps(c, ':');
    SplitUnique(Normal(c), Normal(n), Normal(context), Normal(name));
  }

  lemma {:induction false} SplitUnique(c: string, n: string, d: string, m: string)
    requires ':' !in c && ':' !in d && c + "::" + n == d + "::" + m
    ensures c == d && n == m
  {
    var s := c + "::" + n;
    assert s == c + ("::" + n) && s == d + ("::" + m);
    UptoWhole(c, ':', "::" + n);
    UptoWhole(d, ':', "::" + m);
    assert s[|c| + 2..] == n;
    assert s[|d| + 2..] == m;
  }
}
