/** The reader of SMTP replies: which bytes one call takes from the connection, and what it answers. */
module SmtpDialogue {

  /** The loop's variables. */
  datatype Reader = Reader(charpos: nat, f: char, linetype: char)

  const START := Reader(0, '\0', ' ')

  predicate EndsLine(c: char) {
    c == '\n' || c == '\0'
  }

  /** One byte received; the flag says whether the loop stops after it. */
  function Receive(r: Reader, ch: char): (Reader, bool) {
    var pos := r.charpos + 1;
    var f := if r.f == '\0' then ch else r.f;
    var lt := if pos == 4 then ch else r.linetype;
    if EndsLine(ch) then (Reader(0, f, lt), lt == ' ') else (Reader(pos, f, lt), false)
  }

  /** The state after the call and how many bytes of s it takes. */
  function Take(r: Reader, s: string): (x: (Reader, nat))
    ensures x.1 <= |s|
    decreases |s|
  {
    if s == "" then (r, 0)
    else
      var (r', stop) := Receive(r, s[0]);
      if stop then (r', 1) else var (q, n) := Take(r', s[1..]); (q, n + 1)
  }

  /** `Dialogue` after it has sent its line: the connection's unread bytes are s. */
  method Dialogue(s: string) returns (ok: bool, used: nat)
    ensures used == Take(START, s).1
    ensures var f := Take(START, s).0.f; ok <==> f == '2' || f == '3'
    ensures forall r | WellFormed(r) && ReplyText(r) <= s ::
              used == |ReplyText(r)| && (ok <==> FirstDigit(r) == '2' || FirstDigit(r) == '3')
  {
    var charpos, f, rfclinetype := 0, '\0', ' ';
    used := 0;
    assert s[0..] == s;
    while used < |s|
      invariant 0 <= used <= |s| && charpos >= 0
      invariant var (q, n) := Take(Reader(charpos, f, rfclinetype), s[used..]); Take(START, s) == (q, used + n)
    {
      var ch := s[used];
      assert s[used..][1..] == s[used + 1..];
      used := used + 1;
      charpos := charpos + 1;
      if f == '\0' { f := ch; }
      if charpos == 4 { rfclinetype := ch; }
      if ch == '\n' || ch == '\0' {
        charpos := 0;
        if rfclinetype == ' ' { break; }
      }
    }
    ok := f == '2' || f == '3';
    forall r | WellFormed(r) && ReplyText(r) <= s
      ensures Take(START, s).1 == |ReplyText(r)| && Take(START, s).0.f == FirstDigit(r)
    {
      ReplyInFront(r, s);
    }
  }

  // ---------------------------------------------------------------- lines

  /** Text of a line without its newline. */
  predicate IsLine(l: string) {
    '\n' !in l && '\0' !in l
  }

  /** The line type after a line: its fourth character, counting the newline, or what it was. */
  function TypeAfter(lt: char, l: string): char {
    if |l| >= 4 then l[3] else if |l| == 3 then '\n' else lt
  }

  lemma {:induction false} TakeWithin(r: Reader, l: string, t: string)
    requires IsLine(l)
    ensures var p := r.charpos + |l|;
      var r' := Reader(p, if r.f == '\0' && l != "" then l[0] else r.f,
                       if r.charpos < 4 <= p then l[3 - r.charpos] else r.linetype);
      var (q, n) := Take(r', t);
      Take(r, l + t) == (q, |l| + n)
    decreases |l|
  {
    if l == "" {
      assert l + t == t;
    } else {
      assert (l + t)[1..] == l[1..] + t;
      assert l[0] in l;
      TakeWithin(Receive(r, l[0]).0, l[1..], t);
    }
  }

  /** The state after a whole line, from the start of one. */
  function AfterLine(r: Reader, l: string): Reader {
    Reader(0, if r.f != '\0' then r.f else if l != "" then l[0] else '\n', TypeAfter(r.linetype, l))
  }

  /** One whole line at the start of a line. */
  lemma {:induction false} TakeLine(r: Reader, l: string, t: string)
    requires IsLine(l) && r.charpos == 0
    ensures var x := AfterLine(r, l);
      Take(r, l + ("\n" + t)) == if x.linetype == ' ' then (x, |l| + 1) else (Take(x, t).0, |l| + 1 + Take(x, t).1)
  {
    var u := "\n" + t;
    var f := if r.f == '\0' && l != "" then l[0] else r.f;
    var m := Reader(|l|, f, if 4 <= |l| then l[3] else r.linetype);
    assert Take(r, l + u) == (Take(m, u).0, |l| + Take(m, u).1) by { TakeWithin(r, l, u); }
    TakeNewline(m, t);
    MiddleOfLine(r, l, m);
  }

  lemma {:induction false} MiddleOfLine(r: Reader, l: string, m: Reader)
    requires IsLine(l) && r.charpos == 0
    requires m == Reader(|l|, if r.f == '\0' && l != "" then l[0] else r.f, if 4 <= |l| then l[3] else r.linetype)
    ensures AfterLine(r, l) == AfterNewline(m)
  {
    assert l != "" ==> l[0] in l;
  }

  function AfterNewline(r: Reader): Reader {
    Reader(0, if r.f == '\0' then '\n' else r.f, if r.charpos == 3 then '\n' else r.linetype)
  }

  lemma {:induction false} TakeNewline(r: Reader, t: string)
    ensures var x := AfterNewline(r);
      Take(r, "\n" + t) == if x.linetype == ' ' then (x, 1) else (Take(x, t).0, Take(x, t).1 + 1)
  {
    var u := "\n" + t;
    assert u[1..] == t && u[0] == '\n';
  }

  // ---------------------------------------------------------------- replies

  /** A reply: lines "ddd-text" and a last line "ddd text", as section 4.2.1 of RFC 5321 has them. */
  datatype Reply = Reply(before: seq<string>, last: string)

  predicate Continues(l: string) {
    IsLine(l) && |l| >= 4 && l[3] == '-'
  }

  predicate Finishes(l: string) {
    IsLine(l) && |l| >= 4 && l[3] == ' '
  }

  predicate WellFormed(r: Reply) {
    (forall i | 0 <= i < |r.before| :: Continues(r.before[i])) && Finishes(r.last)
  }

  /** The first digit of the reply's code. */
  function FirstDigit(r: Reply): char
    requires WellFormed(r)
  {
    if r.before == [] then r.last[0] else r.before[0][0]
  }

  function ReplyText(r: Reply): string
    decreases |r.before|
  {
    if r.before == [] then r.last + "\n" else r.before[0] + "\n" + ReplyText(r.(before := r.before[1..]))
  }

  /** Reading on from the start of a line, a call takes the rest of the reply and nothing more. */
  lemma {:induction false} ReplyTaken(x: Reader, r: Reply, t: string)
    requires WellFormed(r) && x.charpos == 0
    ensures Take(x, ReplyText(r) + t).1 == |ReplyText(r)|
    ensures Take(x, ReplyText(r) + t).0.f == if x.f != '\0' then x.f else FirstDigit(r)
    decreases |r.before|
  {
    if r.before == [] {
      assert ReplyText(r) + t == r.last + ("\n" + t);
      TakeLine(x, r.last, t);
    } else {
      var rest := r.(before := r.before[1..]);
      var l := r.before[0];
      assert ReplyText(r) + t == l + ("\n" + (ReplyText(rest) + t));
      TakeLine(x, l, ReplyText(rest) + t);
      ReplyTaken(Reader(0, if x.f != '\0' then x.f else l[0], '-'), rest, t);
    }
  }

  lemma {:induction false} ReplyInFront(r: Reply, s: string)
    requires WellFormed(r) && ReplyText(r) <= s
    ensures Take(START, s).1 == |ReplyText(r)| && Take(START, s).0.f == FirstDigit(r)
  {
    assert s == ReplyText(r) + s[|ReplyText(r)|..];
    ReplyTaken(START, r, s[|ReplyText(r)|..]);
  }

  function AllText(rs: seq<Reply>): string {
    if rs == [] then "" else ReplyText(rs[0]) + AllText(rs[1..])
  }

  /** The unread bytes after k calls, and the answer of the call after them. */
  function AfterCalls(s: string, k: nat): string {
    if k == 0 then s else AfterCalls(s[Take(START, s).1..], k - 1)
  }

  /** The k-th call takes exactly the k-th reply, and its answer rests on the first digit of that reply's code. */
  lemma {:induction false} CallsMatchReplies(rs: seq<Reply>, t: string, k: nat)
    requires k < |rs| && forall i | 0 <= i < |rs| :: WellFormed(rs[i])
    ensures AfterCalls(AllText(rs) + t, k) == AllText(rs[k..]) + t
    ensures AfterCalls(AllText(rs) + t, k + 1) == AllText(rs[k + 1..]) + t
    ensures Take(START, AfterCalls(AllText(rs) + t, k)).0.f == FirstDigit(rs[k])
    decreases k
  {
    var s := AllText(rs) + t;
    var head, rest := ReplyText(rs[0]), AllText(rs[1..]) + t;
    assert s == head + rest;
    ReplyTaken(START, rs[0], rest);
    assert s[|head|..] == rest;
    if k == 0 {
      assert rs[0..] == rs;
      assert AfterCalls(s, 1) == AfterCalls(rest, 0);
    } else {
      CallsMatchReplies(rs[1..], t, k - 1);
      assert rs[1..][k - 1..] == rs[k..] && rs[1..][k..] == rs[k + 1..];
    }
  }

  // ---------------------------------------------------------------- the whole grammar

  /** A reply with any last line at all. */
  predicate IsReply(r: Reply) {
    (forall i | 0 <= i < |r.before| :: Continues(r.before[i])) && IsLine(r.last)
  }

  /** The line type when the last line is over: its fourth character decides, if it has one. */
  function TypeAtEnd(lt: char, r: Reply): char {
    TypeAfter(if r.before == [] then lt else '-', r.last)
  }

  lemma {:induction false} TakesSome(r: Reader, s: string)
    requires s != ""
    ensures Take(r, s).1 > 0
  {
  }

  /**
   A call takes a reply and nothing after it if and only if its last line
   leaves a space as the line type; otherwise it goes on into what follows.
   */
  lemma {:induction false} ReplyTakenExactly(x: Reader, r: Reply, t: string)
    requires IsReply(r) && x.charpos == 0 && t != ""
    ensures Take(x, ReplyText(r) + t).1 >= |ReplyText(r)|
    ensures Take(x, ReplyText(r) + t).1 == |ReplyText(r)| <==> TypeAtEnd(x.linetype, r) == ' '
    decreases |r.before|
  {
    if r.before == [] {
      assert ReplyText(r) + t == r.last + ("\n" + t);
      TakeLine(x, r.last, t);
      TakesSome(AfterLine(x, r.last), t);
    } else {
      var rest := r.(before := r.before[1..]);
      var l := r.before[0];
      assert ReplyText(r) + t == l + ("\n" + (ReplyText(rest) + t));
      TakeLine(x, l, ReplyText(rest) + t);
      ReplyTakenExactly(AfterLine(x, l), rest, t);
    }
  }

  /** The calls keep in step with the replies: each begins where one begins. */
  ghost predicate InStep(rs: seq<Reply>, t: string) {
    forall k: nat | k <= |rs| :: AfterCalls(AllText(rs) + t, k) == AllText(rs[k..]) + t
  }

  /**
   A session stays in step with its replies if and only if each of them ends
   with a line whose code is followed by a space, or that is too short to
   hold a code: a last line of just a code, which the grammar allows, is read
   as if more lines followed.
   */
  lemma {:induction false} StaysInStep(rs: seq<Reply>, t: string)
    requires t != "" && forall i | 0 <= i < |rs| :: IsReply(rs[i])
    ensures InStep(rs, t) <==> forall i | 0 <= i < |rs| :: TypeAtEnd(' ', rs[i]) == ' '
  {
    if rs == [] {
      assert AllText(rs[0..]) == "";
    } else {
      var rest := rs[1..];
      StaysInStep(rest, t);
      FirstInStep(rs, t);
      assert forall i | 1 <= i < |rs| :: rs[i] == rest[i - 1];
      assert (forall i | 0 <= i < |rs| :: TypeAtEnd(' ', rs[i]) == ' ')
             <==> TypeAtEnd(' ', rs[0]) == ' ' && forall i | 0 <= i < |rest| :: TypeAtEnd(' ', rest[i]) == ' ';
    }
  }

  lemma {:induction false} FirstInStep(rs: seq<Reply>, t: string)
    requires rs != [] && t != "" && IsReply(rs[0])
    ensures InStep(rs, t) <==> TypeAtEnd(' ', rs[0]) == ' ' && InStep(rs[1..], t)
  {
    var s, head, rest := AllText(rs) + t, ReplyText(rs[0]), AllText(rs[1..]) + t;
    assert s == head + rest;
    ReplyTakenExactly(START, rs[0], rest);
    var n := Take(START, s).1;
    assert AfterCalls(s, 1) == AfterCalls(s[n..], 0) == s[n..];
    if n == |head| {
      assert s[n..] == rest;
      forall k: nat | k <= |rs[1..]|
        ensures AfterCalls(s, k + 1) == AfterCalls(rest, k) && rs[1..][k..] == rs[k + 1..]
      {
      }
      LaterInStep(rs, t);
    } else {
      assert |s[n..]| < |rest|;
      assert AfterCalls(s, 1) != AllText(rs[1..]) + t;
    }
  }

  lemma {:induction false} LaterInStep(rs: seq<Reply>, t: string)
    requires rs != []
    requires forall k: nat | k <= |rs[1..]| :: AfterCalls(AllText(rs) + t, k + 1) == AfterCalls(AllText(rs[1..]) + t, k)
    requires forall k: nat | k <= |rs[1..]| :: rs[1..][k..] == rs[k + 1..]
    ensures InStep(rs, t) <==> InStep(rs[1..], t)
  {
    var s, later := AllText(rs) + t, AllText(rs[1..]) + t;
    if InStep(rs[1..], t) {
      forall k: nat | k <= |rs| ensures AfterCalls(s, k) == AllText(rs[k..]) + t {
        if k == 0 {
          assert rs[0..] == rs;
        } else {
          assert AfterCalls(s, (k - 1) + 1) == AfterCalls(later, k - 1);
        }
      }
    }
    if InStep(rs, t) {
      forall k: nat | k <= |rs[1..]| ensures AfterCalls(later, k) == AllText(rs[1..][k..]) + t {
        assert AfterCalls(s, k + 1) == AllText(rs[k + 1..]) + t;
      }
    }
  }

  /** The one-line reply "250" with its carriage return is not taken alone. */
  lemma {:induction false} BareCode(t: string)
    requires t != ""
    ensures Take(START, "250\r\n" + t).1 > |"250\r\n"|
  {
    var r := Reply([], "250\r");
    assert ReplyText(r) == "250\r\n";
    ReplyTakenExactly(START, r, t);
  }
}
