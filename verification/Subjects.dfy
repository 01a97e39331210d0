/** Process subjects: "pid:<n>" and "pid:<n>:<start time>", and which process a subject belongs to. */
module Subjects {
  import opened Scoring

  function Digit(d: nat): char
    requires d < 10
  {
    '0' + d as char
  }

  function Digits(n: nat): (s: string)
    ensures s != [] && forall i :: 0 <= i < |s| ==> '0' <= s[i] <= '9'
  {
    if n < 10 then [Digit(n)] else Digits(n / 10) + [Digit(n % 10)]
  }

  /** Decimal notation, with a sign for negative numbers. */
  function Decimal(n: int): (s: string)
    ensures s != [] && ':' !in s
  {
    if n < 0 then ['-'] + Digits(-n) else Digits(n)
  }

  function PidSubject(pid: int): string {
    "pid:" + Decimal(pid)
  }

  function InstanceSubject(pid: int, startTime: int): string {
    PidSubject(pid) + ":" + Decimal(startTime)
  }

  /** The subjects cleared when a process exits. */
  predicate Owns(pid: int, subject: string) {
    subject == PidSubject(pid) || PidSubject(pid) + ":" <= subject
  }

  lemma OwnsIsPurges(pid: int, subject: string)
    ensures Owns(pid, subject) <==> Purges(PidSubject(pid), subject)
  {
    assert "pid:" <= PidSubject(pid);
  }

  function Value(s: string): nat
    requires forall i :: 0 <= i < |s| ==> '0' <= s[i] <= '9'
  {
    if s == [] then 0 else 10 * Value(s[..|s| - 1]) + (s[|s| - 1] - '0') as nat
  }

  lemma {:induction false} ValueOfDigits(n: nat)
    ensures Value(Digits(n)) == n
  {
    if n < 10 {
      assert Digits(n)[..0] == [];
    } else {
      ValueOfDigits(n / 10);
      assert Digits(n)[..|Digits(n)| - 1] == Digits(n / 10);
    }
  }

  lemma DecimalInjective(m: int, n: int)
    requires Decimal(m) == Decimal(n)
    ensures m == n
  {
    assert Digits(if m < 0 then -m else m)[0] != '-' && Digits(if n < 0 then -n else n)[0] != '-';
    if m < 0 && n < 0 {
      assert Decimal(m)[1..] == Digits(-m) && Decimal(n)[1..] == Digits(-n);
    }
    ValueOfDigits(if m < 0 then -m else m);
    ValueOfDigits(if n < 0 then -n else n);
  }

  /** No subject belongs to two processes, not even when one id extends the other's digits. */
  lemma OwnerUnique(p: int, q: int, subject: string)
    requires Owns(p, subject) && Owns(q, subject)
    ensures p == q
  {
    var a, b := Decimal(p), Decimal(q);
    assert PidSubject(p)[4..] == a && PidSubject(q)[4..] == b;
    var rest := subject[4..];
    FieldIs(p, subject);
    FieldIs(q, subject);
    DecimalInjective(p, q);
  }

  /** The text up to the first colon. */
  function Field(s: string): string {
    if s == [] || s[0] == ':' then [] else [s[0]] + Field(s[1..])
  }

  lemma {:induction false} FieldOf(a: string, rest: string)
    requires ':' !in a && (rest == [] || rest[0] == ':')
    ensures Field(a + rest) == a
  {
    if a == [] {
      assert a + rest == rest;
    } else {
      assert a[0] in a;
      assert (a + rest)[1..] == a[1..] + rest;
      FieldOf(a[1..], rest);
    }
  }

  lemma FieldIs(p: int, subject: string)
    requires Owns(p, subject)
    ensures |subject| >= 4 && Field(subject[4..]) == Decimal(p)
  {
    var a := Decimal(p);
    var key := PidSubject(p);
    assert key[4..] == a;
    if subject == key {
      FieldOf(a, []);
      assert a + [] == a;
    } else {
      var rest := subject[|key|..];
      assert subject == key + rest;
      assert rest[0] == (key + ":")[|key|] == ':';
      assert subject[4..] == a + rest;
      FieldOf(a, rest);
    }
  }

  /** The subjects the detectors build for a process belong to it. */
  lemma OwnSubjects(pid: int, startTime: int)
    ensures Owns(pid, PidSubject(pid)) && Owns(pid, InstanceSubject(pid, startTime))
  {
    assert InstanceSubject(pid, startTime) == (PidSubject(pid) + ":") + Decimal(startTime);
  }
}
