/** Which mode and packet time the iLBC encoder filter is in after a run of settings. */
module IlbcSettings {
  import opened Streams
  import opened Reframing
  import opened IlbcEncoder

  // ---------- what a text says ----------

  ghost predicate OccursAt(s: string, part: string, i: nat) { i + |part| <= |s| && s[i..i + |part|] == part }

  ghost predicate Occurs(s: string, part: string) { exists i: nat :: OccursAt(s, part, i) }

  lemma OccursAtFront(s: string, part: string)
    ensures OccursAt(s, part, 0) <==> part <= s
  {
  }

  lemma OccursLater(s: string, part: string, i: nat)
    requires s != []
    ensures OccursAt(s, part, i + 1) <==> OccursAt(s[1..], part, i)
  {
    if i + 1 + |part| <= |s| { assert s[1..][i..i + |part|] == s[i + 1..i + 1 + |part|]; }
  }

  lemma OccursFrontOrLater(s: string, part: string)
    requires s != []
    ensures Occurs(s, part) <==> part <= s || Occurs(s[1..], part)
  {
    OccursAtFront(s, part);
    if i: nat :| OccursAt(s, part, i) && i > 0 { OccursLater(s, part, i - 1); }
    if i: nat :| OccursAt(s[1..], part, i) { OccursLater(s, part, i); }
    hide OccursAt;
  }

  lemma {:induction false} ContainsIffOccurs(s: string, part: string)
    ensures Contains(s, part) <==> Occurs(s, part)
  {
    if s == [] {
      OccursAtFront(s, part);
    } else {
      OccursFrontOrLater(s, part);
      hide Occurs;
      ContainsIffOccurs(s[1..], part);
    }
  }

  predicate IsDigit(c: char) { '0' <= c <= '9' }

  predicate AllDigits(d: string) { forall i :: 0 <= i < |d| ==> IsDigit(d[i]) }

  /** The number a sequence of decimal digits denotes. */
  function Value(d: string): nat
    requires AllDigits(d)
  {
    if d == [] then 0 else 10 * Value(d[..|d| - 1]) + (d[|d| - 1] - '0') as nat
  }

  /** The decimal text of a number. */
  function Decimal(n: nat): (d: string) {
    (if n < 10 then [] else Decimal(n / 10)) + ['0' + (n % 10) as char]
  }

  lemma {:induction false} DecimalDenotes(n: nat)
    ensures AllDigits(Decimal(n)) && Decimal(n) != [] && Value(Decimal(n)) == n
  {
    if n >= 10 { DecimalDenotes(n / 10); }
    var init := if n < 10 then [] else Decimal(n / 10);
    assert Decimal(n)[..|init|] == init;
  }

  lemma {:induction false} DigitsRead(d: string, rest: string)
    requires AllDigits(d)
    ensures Digits(d + rest, 0) == Digits(rest, Value(d))
  {
    if d == [] {
      assert d + rest == rest;
    } else {
      var init, last := d[..|d| - 1], d[|d| - 1];
      assert d + rest == init + ([last] + rest);
      DigitsRead(init, [last] + rest);
    }
  }

  ghost predicate Blank(s: string) { forall i :: 0 <= i < |s| ==> IsSpace(s[i]) }

  lemma {:induction false} BlankSkipped(blank: string, s: string)
    requires Blank(blank)
    ensures Atoi(blank + s) == Atoi(s)
  {
    if blank == [] {
      assert blank + s == s;
    } else {
      assert (blank + s)[0] == blank[0] && (blank + s)[1..] == blank[1..] + s;
      BlankSkipped(blank[1..], s);
    }
  }

  /** White space and a sign are skipped, the digits give the number, and what follows them has
      no influence. */
  lemma NumberRead(blank: string, sign: string, d: string, rest: string)
    requires Blank(blank) && AllDigits(d) && d != [] && (rest == [] || !IsDigit(rest[0]))
    requires sign == "" || sign == "+" || sign == "-"
    ensures Atoi(blank + (sign + (d + rest))) == if sign == "-" then -(Value(d) as int) else Value(d)
  {
    BlankSkipped(blank, sign + (d + rest));
    DigitsRead(d, rest);
    assert Digits(rest, Value(d)) == Value(d);
    if sign == "" {
      assert sign + (d + rest) == d + rest && IsDigit((d + rest)[0]);
    } else {
      assert (sign + (d + rest))[1..] == d + rest;
    }
  }

  lemma DecimalRead(n: nat)
    ensures Atoi(Decimal(n)) == n
  {
    DecimalDenotes(n);
    NumberRead("", "", Decimal(n), "");
    assert "" + ("" + (Decimal(n) + "")) == Decimal(n);
  }

  // ---------- what one setting does ----------

  /** The event's mode text selects 20 ms frames of 160 samples and 38 bytes, or 30 ms frames of
      240 samples and 50 bytes; a text with both numbers selects the former. */
  ghost predicate Selects(e: Event, c: Config) {
    && e.Fmtp? && e.mode.Some?
    && if Occurs(e.mode.value, "20") then c == Config(160, 38, 20)
       else Occurs(e.mode.value, "30") && c == Config(240, 50, 30)
  }

  /** The packet times an attribute may set, in the order in which they are looked for. */
  const PTIMES := [20, 30, 40, 60, 80, 90, 100, 120, 140]

  /** The event sets the packet time: a parameter of 20 to 140 that no empty mode hides, or the
      first of the attribute texts that occurs. */
  ghost predicate SetsPtime(e: Event, p: int) {
    || (e.Fmtp? && e.mode != Some("") && e.ptime.Some? && 20 <= Atoi(e.ptime.value) <= 140 && p == Atoi(e.ptime.value))
    || (e.Attr? && exists i :: 0 <= i < |PTIMES| && PTIMES[i] == p && FirstToOccur(e.attr, i))
  }

  function PtimeText(p: nat): string { "ptime:" + Decimal(p) }

  ghost predicate FirstToOccur(attr: string, i: nat)
    requires i < |PTIMES|
  {
    Occurs(attr, PtimeText(PTIMES[i])) && forall j :: 0 <= j < i ==> !Occurs(attr, PtimeText(PTIMES[j]))
  }

  lemma ModeSet(s: State, mode: Option<string>, ptime: Option<string>)
    ensures var e, t := Fmtp(mode, ptime), AddFmtp(s, mode, ptime);
            && t == s.(config := t.config, ptime := t.ptime)
            && (forall c :: Selects(e, c) ==> t.config == c)
            && ((forall c :: !Selects(e, c)) ==> t.config == s.config)
  {
    if mode.Some? {
      ContainsIffOccurs(mode.value, "20");
      ContainsIffOccurs(mode.value, "30");
      assert !Occurs("", "20") && !Occurs("", "30") by {
        ContainsIffOccurs("", "20");
        ContainsIffOccurs("", "30");
      }
      assert Occurs(mode.value, "20") ==> Selects(Fmtp(mode, ptime), Config(160, 38, 20));
      assert Occurs(mode.value, "30") && !Occurs(mode.value, "20")
          ==> Selects(Fmtp(mode, ptime), Config(240, 50, 30));
    }
    hide Contains, Occurs, Atoi;
  }

  lemma PtimeParameter(s: State, mode: Option<string>, ptime: Option<string>)
    ensures var e, t := Fmtp(mode, ptime), AddFmtp(s, mode, ptime);
            && (forall p :: SetsPtime(e, p) ==> t.ptime == p)
            && ((forall p :: !SetsPtime(e, p)) ==> t.ptime == s.ptime)
  {
    hide Contains, Occurs, FirstToOccur;
    if ptime.Some? {
      assert Atoi("") == 0;
      if mode != Some("") && 20 <= Atoi(ptime.value) <= 140 {
        assert SetsPtime(Fmtp(mode, ptime), Atoi(ptime.value));
      }
    }
    hide Atoi;
  }

  /** An empty mode makes the filter ignore the parameters altogether. */
  lemma EmptyModeIgnored(s: State, ptime: Option<string>)
    ensures AddFmtp(s, Some(""), ptime) == s
  {
  }

  /** A packet time written in decimal is taken exactly when it is between 20 and 140. */
  lemma DecimalPtime(s: State, mode: Option<string>, n: nat)
    requires mode != Some("")
    ensures AddFmtp(s, mode, Some(Decimal(n))).ptime == if 20 <= n <= 140 then n else s.ptime
  {
    DecimalRead(n);
    DecimalDenotes(n);
    hide Contains, Atoi, Decimal;
  }

  lemma TextsOfPtimes()
    ensures PtimeText(20) == "ptime:20" && PtimeText(30) == "ptime:30" && PtimeText(40) == "ptime:40"
    ensures PtimeText(60) == "ptime:60" && PtimeText(80) == "ptime:80" && PtimeText(90) == "ptime:90"
    ensures PtimeText(100) == "ptime:100" && PtimeText(120) == "ptime:120" && PtimeText(140) == "ptime:140"
  {
  }

  lemma AttrChoice(s: State, attr: string) returns (i: nat)
    ensures i <= |PTIMES|
    ensures i < |PTIMES| ==> FirstToOccur(attr, i) && AddAttr(s, attr) == s.(ptime := PTIMES[i])
    ensures i == |PTIMES| ==> AddAttr(s, attr) == s
    ensures i == |PTIMES| ==> forall j :: 0 <= j < |PTIMES| ==> !Occurs(attr, PtimeText(PTIMES[j]))
  {
    TextsOfPtimes();
    hide Contains, Occurs, PtimeText;
    i := 0;
    while i < |PTIMES| && !Contains(attr, PtimeText(PTIMES[i]))
      invariant i <= |PTIMES|
      invariant forall j :: 0 <= j < i ==> !Contains(attr, PtimeText(PTIMES[j]))
      invariant forall j :: 0 <= j < i ==> !Occurs(attr, PtimeText(PTIMES[j]))
    {
      ContainsIffOccurs(attr, PtimeText(PTIMES[i]));
      i := i + 1;
    }
    if i < |PTIMES| { ContainsIffOccurs(attr, PtimeText(PTIMES[i])); }
    assert PTIMES[0] == 20 && PTIMES[1] == 30 && PTIMES[2] == 40 && PTIMES[3] == 60 && PTIMES[4] == 80;
    assert PTIMES[5] == 90 && PTIMES[6] == 100 && PTIMES[7] == 120 && PTIMES[8] == 140;
  }

  lemma PtimeAttribute(s: State, attr: string)
    ensures var e, t := Attr(attr), AddAttr(s, attr);
            && t == s.(ptime := t.ptime)
            && (forall p :: SetsPtime(e, p) ==> t.ptime == p)
            && ((forall p :: !SetsPtime(e, p)) ==> t.ptime == s.ptime)
  {
    var i := AttrChoice(s, attr);
    hide Occurs, PtimeText, AddAttr;
    if i < |PTIMES| { assert SetsPtime(Attr(attr), PTIMES[i]); }
  }

  // ---------- what a run of settings does ----------

  lemma {:induction false} DrainKeepsSettings(s: State, coder: Coder)
    requires Ready(s)
    ensures var t := Drain(s, coder); t.config == s.config && t.ptime == s.ptime
    decreases |s.buffer|
  {
    if |s.buffer| >= PacketBytes(s) {
      PacketNotEmpty(s);
      DrainKeepsSettings(EncodePacket(s, coder), coder);
    }
  }

  lemma SettingStep(s: State, e: Event, coder: Coder)
    requires Legal(s, e)
    ensures var t := Step(s, e, coder);
            && (forall c :: Selects(e, c) ==> t.config == c)
            && ((forall c :: !Selects(e, c)) ==> t.config == s.config)
            && (forall p :: SetsPtime(e, p) ==> t.ptime == p)
            && ((forall p :: !SetsPtime(e, p)) ==> t.ptime == s.ptime)
  {
    match e {
      case Fmtp(mode, ptime) =>
        ModeSet(s, mode, ptime);
        PtimeParameter(s, mode, ptime);
        hide AddFmtp, Selects, SetsPtime;
      case Attr(attr) =>
        PtimeAttribute(s, attr);
        hide AddAttr, SetsPtime;
      case Start =>
      case Tick(blocks) =>
        DrainKeepsSettings(Feed(s, Flatten(blocks)), coder);
        hide Drain, Flatten;
    }
  }

  /** The mode in force after a run is the one last selected, the compiled-in one when there is
      none: `k` is the number of events up to that selection. */
  lemma {:induction false} LastModeInForce(use20ms: bool, es: seq<Event>, coder: Coder, k: nat, c: Config)
    requires Run(Init(use20ms), es, coder).Some? && k <= |es|
    requires if k > 0 then Selects(es[k - 1], c) else c == if use20ms then Config(160, 38, 20) else Config(240, 50, 30)
    requires forall i, d :: k <= i < |es| ==> !Selects(es[i], d)
    ensures Run(Init(use20ms), es, coder).value.config == c
  {
    hide Selects, SetsPtime, Step, Legal;
    if es != [] {
      var init := es[..|es| - 1];
      SettingStep(Run(Init(use20ms), init, coder).value, es[|es| - 1], coder);
      if k < |es| { LastModeInForce(use20ms, init, coder, k, c); }
    }
  }

  /** The packet time in force after a run is the one last set, none when there is no such
      setting. */
  lemma {:induction false} LastPtimeInForce(use20ms: bool, es: seq<Event>, coder: Coder, k: nat, p: int)
    requires Run(Init(use20ms), es, coder).Some? && k <= |es|
    requires if k > 0 then SetsPtime(es[k - 1], p) else p == 0
    requires forall i, q :: k <= i < |es| ==> !SetsPtime(es[i], q)
    ensures Run(Init(use20ms), es, coder).value.ptime == p
  {
    hide Selects, SetsPtime, Step, Legal;
    if es != [] {
      var init := es[..|es| - 1];
      SettingStep(Run(Init(use20ms), init, coder).value, es[|es| - 1], coder);
      if k < |es| { LastPtimeInForce(use20ms, init, coder, k, p); }
    }
  }
}
