/** The UTC stamp of crates/common/src/text.rs: what its text recovers and orders. */
module UtcStamp {
  import opened Prelude
  import opened Calendar

  // ---- Decimal text ----

  function Digit(d: int): char
    requires 0 <= d < 10
  {
    "0123456789"[d]
  }

  /** `{n:0w}`: n in decimal, zero-padded to at least w digits. */
  function Padded(n: nat, w: nat): (text: string)
    ensures |text| >= 1
    decreases n + w
  {
    if n < 10 && w <= 1 then [Digit(n)]
    else Padded(n / 10, if w == 0 then 0 else w - 1) + [Digit(n % 10)]
  }

  function Pow10(w: nat): nat {
    if w == 0 then 1 else 10 * Pow10(w - 1)
  }

  /** The number a string of decimal digits denotes. */
  function NumberOf(text: string): Option<nat> {
    if text == [] then Some(0)
    else
      var last := text[|text| - 1];
      match NumberOf(text[..|text| - 1])
      case Some(n) => if '0' <= last <= '9' then Some(10 * n + (last as int - '0' as int)) else None
      case None => None
  }

  lemma DigitIsNumber(d: int)
    requires 0 <= d < 10
    ensures '0' <= Digit(d) <= '9' && Digit(d) as int - '0' as int == d
  {
  }

  lemma {:induction false} PaddedIsNumber(n: nat, w: nat)
    ensures NumberOf(Padded(n, w)) == Some(n)
    decreases n + w
  {
    hide Digit;
    var text := Padded(n, w);
    DigitIsNumber(n % 10);
    if n < 10 && w <= 1 {
      assert text[..0] == [];
    } else {
      var v := if w == 0 then 0 else w - 1;
      PaddedIsNumber(n / 10, v);
      assert text[..|text| - 1] == Padded(n / 10, v);
    }
  }

  lemma {:induction false} PaddedWidth(n: nat, w: nat)
    requires w >= 1 && n < Pow10(w)
    ensures |Padded(n, w)| == w
    decreases w
  {
    if w > 1 {
      PaddedWidth(n / 10, w - 1);
    }
  }

  /** More digits than asked for only when the number needs them: then it does not begin
      with a zero. */
  lemma {:induction false} PaddedIsShortest(n: nat, w: nat)
    ensures |Padded(n, w)| >= w && |Padded(n, w)| >= 1
    ensures |Padded(n, w)| > w && |Padded(n, w)| > 1 ==> Padded(n, w)[0] != '0'
    decreases n + w
  {
    hide Digit;
    if !(n < 10 && w <= 1) {
      var v := if w == 0 then 0 else w - 1;
      PaddedIsShortest(n / 10, v);
      if n / 10 < 10 && v <= 1 {
        DigitIsNumber(n / 10);
      }
    }
  }

  // ---- Lexicographic order ----

  predicate Less(a: string, b: string) {
    if a == [] || b == [] then a == [] && b != []
    else a[0] < b[0] || (a[0] == b[0] && Less(a[1..], b[1..]))
  }

  lemma {:induction false} LessOfPieces(a: string, x: string, b: string, y: string)
    requires |a| == |b|
    ensures Less(a + x, b + y) <==> Less(a, b) || (a == b && Less(x, y))
    decreases |a|
  {
    if a == [] {
      assert a + x == x && b + y == y;
    } else {
      assert (a + x)[1..] == a[1..] + x && (b + y)[1..] == b[1..] + y;
      LessOfPieces(a[1..], x, b[1..], y);
      assert a == b <==> a[0] == b[0] && a[1..] == b[1..];
    }
  }

  /** The order is the dictionary's: a text comes before its continuations, and of two texts
      one comes first. */
  lemma {:induction false} LessIsTotal(a: string, b: string)
    ensures Less(a, a + b) <==> b != []
    ensures a != b ==> (Less(a, b) <==> !Less(b, a))
    decreases |a|
  {
    if a == [] {
      assert a + b == b;
    } else {
      assert (a + b)[1..] == a[1..] + b;
      LessIsTotal(a[1..], b);
      if b != [] {
        LessIsTotal(a[1..], b[1..]);
        assert a == b <==> a[0] == b[0] && a[1..] == b[1..];
      }
    }
  }

  lemma DigitOrder(d: int, e: int)
    requires 0 <= d < 10 && 0 <= e < 10
    ensures Less([Digit(d)], [Digit(e)]) <==> d < e
  {
    assert Less([Digit(d)], [Digit(e)]) <==> Digit(d) < Digit(e);
  }

  lemma {:induction false} PaddedOrder(n: nat, m: nat, w: nat)
    requires w >= 1 && n < Pow10(w) && m < Pow10(w)
    ensures Less(Padded(n, w), Padded(m, w)) <==> n < m
    decreases w
  {
    hide NumberOf;
    hide Less;
    hide Digit;
    DigitOrder(n % 10, m % 10);
    if w == 1 {
      assert n % 10 == n && m % 10 == m;
    } else {
      PaddedOrder(n / 10, m / 10, w - 1);
      PaddedWidth(n / 10, w - 1);
      PaddedWidth(m / 10, w - 1);
      PaddedIsNumber(n / 10, w - 1);
      PaddedIsNumber(m / 10, w - 1);
      LessOfPieces(Padded(n / 10, w - 1), [Digit(n % 10)], Padded(m / 10, w - 1), [Digit(m % 10)]);
      assert n < m <==> n / 10 < m / 10 || (n / 10 == m / 10 && n % 10 < m % 10);
    }
  }

  // ---- The stamp ----

  /** A date and time with each field in its range. */
  datatype Stamp = Stamp(date: Date, h: nat, mi: nat, s: nat)

  ghost predicate InRange(st: Stamp) {
    IsDate(st.date) && st.date.year >= 0 && st.h < 24 && st.mi < 60 && st.s < 60
  }

  /** `-MM-DD HH:MM:SSZ` */
  function Joined(a: string, b: string, c: string, d: string, e: string): string {
    "-" + a + "-" + b + " " + c + ":" + d + ":" + e + "Z"
  }

  function Tail(st: Stamp): string
    requires InRange(st)
  {
    Joined(Padded(st.date.month, 2), Padded(st.date.day, 2), Padded(st.h, 2), Padded(st.mi, 2), Padded(st.s, 2))
  }

  function Print(st: Stamp): string
    requires InRange(st)
  {
    Padded(st.date.year, 4) + Tail(st)
  }

  function StampOf(unix: nat): (st: Stamp)
    ensures InRange(st)
  {
    var secs := unix % 86_400;
    DaysRoundTrip(unix / 86_400);
    SinceEpoch(unix / 86_400);
    Stamp(CivilFromDays(unix / 86_400), secs / 3600, secs % 3600 / 60, secs % 60)
  }

  lemma SinceEpoch(days: nat)
    ensures CivilFromDays(days).year >= 1970
  {
    EpochDay();
    if days > 0 {
      DaysKeepOrder(0, days);
    }
  }

  function FormatUtc(unix: nat): string {
    Print(StampOf(unix))
  }

  function SecondsOf(st: Stamp): int {
    DaysFromCivil(st.date) * 86_400 + st.h * 3600 + st.mi * 60 + st.s
  }

  /** Reads a stamp: the last 16 characters are fixed, the year is what precedes them. */
  function ParseUtc(text: string): Option<int> {
    var n := |text| - 16;
    if n < 1 then None
    else if text[n] != '-' || text[n + 3] != '-' || text[n + 6] != ' ' || text[n + 9] != ':' ||
            text[n + 12] != ':' || text[n + 15] != 'Z' then None
    else
      match (NumberOf(text[..n]), NumberOf(text[n + 1..n + 3]), NumberOf(text[n + 4..n + 6]),
             NumberOf(text[n + 7..n + 9]), NumberOf(text[n + 10..n + 12]), NumberOf(text[n + 13..n + 15]))
      case (Some(y), Some(m), Some(d), Some(h), Some(mi), Some(s)) =>
        Some(SecondsOf(Stamp(Date(y, m, d), h, mi, s)))
      case _ => None
  }

  lemma TwoDigits(n: nat)
    requires n < 100
    ensures |Padded(n, 2)| == 2 && NumberOf(Padded(n, 2)) == Some(n)
  {
    assert Pow10(2) == 100 by {
      assert Pow10(1) == 10;
    }
    PaddedWidth(n, 2);
    PaddedIsNumber(n, 2);
  }

  lemma JoinedFields(a: string, b: string, c: string, d: string, e: string)
    requires |a| == |b| == |c| == |d| == |e| == 2
    ensures var t := Joined(a, b, c, d, e);
            && |t| == 16
            && t[0] == '-' && t[3] == '-' && t[6] == ' ' && t[9] == ':' && t[12] == ':' && t[15] == 'Z'
            && t[1..3] == a && t[4..6] == b && t[7..9] == c && t[10..12] == d && t[13..15] == e
  {
    var t := Joined(a, b, c, d, e);
    JoinedCharacters(a, b, c, d, e);
    hide Joined;
    Two(a, t, 1);
    Two(b, t, 4);
    Two(c, t, 7);
    Two(d, t, 10);
    Two(e, t, 13);
  }

  lemma JoinedCharacters(a: string, b: string, c: string, d: string, e: string)
    requires |a| == |b| == |c| == |d| == |e| == 2
    ensures Joined(a, b, c, d, e) ==
            ['-', a[0], a[1], '-', b[0], b[1], ' ', c[0], c[1], ':', d[0], d[1], ':', e[0], e[1], 'Z']
  {
  }

  lemma Two(a: string, t: string, i: nat)
    requires |a| == 2 && i + 2 <= |t| && t[i] == a[0] && t[i + 1] == a[1]
    ensures t[i..i + 2] == a
  {
  }

  lemma TailSlices(head: string, t: string)
    requires |t| == 16
    ensures var text, n := head + t, |head|;
            && text[..n] == head
            && text[n + 1..n + 3] == t[1..3] && text[n + 4..n + 6] == t[4..6] && text[n + 7..n + 9] == t[7..9]
            && text[n + 10..n + 12] == t[10..12] && text[n + 13..n + 15] == t[13..15]
  {
  }

  lemma PrintThenParse(st: Stamp)
    requires InRange(st)
    ensures ParseUtc(Print(st)) == Some(SecondsOf(st))
  {
    hide Padded;
    hide NumberOf;
    hide Joined;
    hide SecondsOf;
    TwoDigits(st.date.month);
    TwoDigits(st.date.day);
    TwoDigits(st.h);
    TwoDigits(st.mi);
    TwoDigits(st.s);
    PaddedIsNumber(st.date.year, 4);
    JoinedFields(Padded(st.date.month, 2), Padded(st.date.day, 2), Padded(st.h, 2), Padded(st.mi, 2), Padded(st.s, 2));
    TailSlices(Padded(st.date.year, 4), Tail(st));
  }

  /** Every Unix second is recovered from its stamp. */
  lemma StampRoundTrip(unix: nat)
    ensures ParseUtc(FormatUtc(unix)) == Some(unix)
  {
    hide CivilFromDays;
    hide DaysFromCivil;
    hide Print;
    hide ParseUtc;
    PrintThenParse(StampOf(unix));
    DaysRoundTrip(unix / 86_400);
  }

  /** The epoch's stamp, character by character. */
  lemma EpochStamp()
    ensures FormatUtc(0) == "1970-01-01 00:00:00Z"
  {
    hide StampOf;
    hide Print;
    EpochStampOf();
    PrintEpoch();
  }

  lemma EpochStampOf()
    ensures StampOf(0) == Stamp(Date(1970, 1, 1), 0, 0, 0)
  {
    hide CivilFromDays;
    EpochDay();
  }

  lemma PrintEpoch()
    ensures InRange(Stamp(Date(1970, 1, 1), 0, 0, 0))
    ensures Print(Stamp(Date(1970, 1, 1), 0, 0, 0)) == "1970-01-01 00:00:00Z"
  {
    hide Padded;
    hide Joined;
    EpochFields();
    JoinedCharacters("01", "01", "00", "00", "00");
  }

  lemma EpochFields()
    ensures Padded(1970, 4) == "1970" && Padded(1, 2) == "01" && Padded(0, 2) == "00"
  {
    assert Padded(0, 1) == "0" && Padded(1, 1) == "1";
    assert Padded(19, 2) == "19";
    assert Padded(197, 3) == "197";
  }

  predicate Earlier(a: Stamp, b: Stamp) {
    || Before(a.date, b.date)
    || (a.date == b.date && (a.h < b.h || (a.h == b.h && (a.mi < b.mi || (a.mi == b.mi && a.s < b.s)))))
  }

  /** Hours, minutes and seconds order the seconds of a day. */
  lemma ClockOrder(x: nat, y: nat)
    requires x < y < 86_400
    ensures || x / 3600 < y / 3600
            || (x / 3600 == y / 3600 && x % 3600 / 60 < y % 3600 / 60)
            || (x / 3600 == y / 3600 && x % 3600 / 60 == y % 3600 / 60 && x % 60 < y % 60)
  {
    ClockSums(x);
    ClockSums(y);
  }

  lemma ClockSums(x: nat)
    ensures x == 3600 * (x / 3600) + 60 * (x % 3600 / 60) + x % 60
  {
    var r := x % 3600;
    DivModUnique(x, 60, 60 * (x / 3600) + r / 60, r % 60);
  }

  lemma StampsKeepOrder(a: nat, b: nat)
    requires a < b
    ensures Earlier(StampOf(a), StampOf(b))
  {
    hide CivilFromDays;
    hide Before;
    if a / 86_400 == b / 86_400 {
      ClockOrder(a % 86_400, b % 86_400);
    }
    if a / 86_400 < b / 86_400 {
      DaysKeepOrder(a / 86_400, b / 86_400);
    }
  }

  lemma JoinedOrder(st: Stamp, u: Stamp)
    requires InRange(st) && InRange(u)
    ensures Less(Tail(st), Tail(u)) <==>
            || st.date.month < u.date.month
            || (st.date.month == u.date.month &&
                (st.date.day < u.date.day || (st.date.day == u.date.day &&
                  (st.h < u.h || (st.h == u.h && (st.mi < u.mi || (st.mi == u.mi && st.s < u.s)))))))
  {
    hide Padded;
    hide Less;
    var e, f := Padded(st.s, 2) + "Z", Padded(u.s, 2) + "Z";
    var d, g := ":" + e, ":" + f;
    FieldOrder(st.s, u.s, "Z", "Z");
    SeparatorOrder(':', e, f);
    FieldOrder(st.mi, u.mi, d, g);
    SeparatorOrder(':', Padded(st.mi, 2) + d, Padded(u.mi, 2) + g);
    var c, h := ":" + (Padded(st.mi, 2) + d), ":" + (Padded(u.mi, 2) + g);
    FieldOrder(st.h, u.h, c, h);
    SeparatorOrder(' ', Padded(st.h, 2) + c, Padded(u.h, 2) + h);
    var b, i := " " + (Padded(st.h, 2) + c), " " + (Padded(u.h, 2) + h);
    FieldOrder(st.date.day, u.date.day, b, i);
    SeparatorOrder('-', Padded(st.date.day, 2) + b, Padded(u.date.day, 2) + i);
    var a, j := "-" + (Padded(st.date.day, 2) + b), "-" + (Padded(u.date.day, 2) + i);
    FieldOrder(st.date.month, u.date.month, a, j);
    SeparatorOrder('-', Padded(st.date.month, 2) + a, Padded(u.date.month, 2) + j);
    assert Tail(st) == "-" + (Padded(st.date.month, 2) + a);
    assert Tail(u) == "-" + (Padded(u.date.month, 2) + j);
    NotLessThanItself("Z");
  }

  lemma NotLessThanItself(a: string)
    ensures !Less(a, a)
  {
  }

  lemma SeparatorOrder(c: char, x: string, y: string)
    ensures Less([c] + x, [c] + y) <==> Less(x, y)
  {
    LessOfPieces([c], x, [c], y);
    NotLessThanItself([c]);
  }

  lemma FieldOrder(n: nat, m: nat, x: string, y: string)
    requires n < 100 && m < 100
    ensures Less(Padded(n, 2) + x, Padded(m, 2) + y) <==> n < m || (n == m && Less(x, y))
  {
    hide Padded;
    hide Less;
    TwoDigits(n);
    TwoDigits(m);
    assert Pow10(2) == 100 by {
      assert Pow10(1) == 10;
    }
    PaddedOrder(n, m, 2);
    LessOfPieces(Padded(n, 2), x, Padded(m, 2), y);
  }

  /** The last second whose year has four digits. */
  const LAST_OF_9999 := 253_402_300_799

  lemma LastDayNumbers()
    ensures DaysFromCivil(Date(9999, 12, 31)) == 2_932_896 && DaysFromCivil(Date(10_000, 1, 1)) == 2_932_897
  {
    assert YearStart(399) == 145_731;
    hide YearStart;
  }

  lemma FourDigitYears(unix: nat)
    ensures StampOf(unix).date.year <= 9999 <==> unix <= LAST_OF_9999
  {
    hide CivilFromDays;
    var days := unix / 86_400;
    var last, first := Date(9999, 12, 31), Date(10_000, 1, 1);
    hide DaysFromCivil;
    LastDayNumbers();
    DateRoundTrip(last);
    DateRoundTrip(first);
    if days < 2_932_896 {
      DaysKeepOrder(days, 2_932_896);
    } else if days > 2_932_897 {
      DaysKeepOrder(2_932_897, days);
    }
  }

  lemma PrintOrder(a: Stamp, b: Stamp)
    requires InRange(a) && InRange(b) && a.date.year <= 9999 && b.date.year <= 9999
    ensures Less(Print(a), Print(b)) <==> Earlier(a, b)
  {
    hide Padded;
    hide Less;
    hide Tail;
    assert Pow10(4) == 10_000 by {
      assert Pow10(2) == 10 * Pow10(1) && Pow10(1) == 10;
    }
    PaddedWidth(a.date.year, 4);
    PaddedWidth(b.date.year, 4);
    PaddedIsNumber(a.date.year, 4);
    PaddedIsNumber(b.date.year, 4);
    PaddedOrder(a.date.year, b.date.year, 4);
    LessOfPieces(Padded(a.date.year, 4), Tail(a), Padded(b.date.year, 4), Tail(b));
    JoinedOrder(a, b);
  }

  /** Up to the end of year 9999 the order of the texts is the order of the times. */
  lemma TextOrderIsTimeOrder(a: nat, b: nat)
    requires a <= LAST_OF_9999 && b <= LAST_OF_9999
    ensures Less(FormatUtc(a), FormatUtc(b)) <==> a < b
  {
    hide CivilFromDays;
    hide Print;
    hide Less;
    FourDigitYears(a);
    FourDigitYears(b);
    PrintOrder(StampOf(a), StampOf(b));
    if a < b {
      StampsKeepOrder(a, b);
    } else if b < a {
      StampsKeepOrder(b, a);
    }
  }

  /** The next second's text sorts before it: the year grows to five digits. */
  lemma YearTenThousandSortsFirst()
    ensures Less(FormatUtc(LAST_OF_9999 + 1), FormatUtc(LAST_OF_9999))
  {
    hide StampOf;
    hide Print;
    hide Less;
    LastDates();
    FirstDigits();
    StartsWithYear(StampOf(LAST_OF_9999));
    StartsWithYear(StampOf(LAST_OF_9999 + 1));
    LessByFirst(FormatUtc(LAST_OF_9999 + 1), FormatUtc(LAST_OF_9999));
  }

  lemma LastDates()
    ensures StampOf(LAST_OF_9999).date == Date(9999, 12, 31)
    ensures StampOf(LAST_OF_9999 + 1).date == Date(10_000, 1, 1)
  {
    hide CivilFromDays;
    var last, first := Date(9999, 12, 31), Date(10_000, 1, 1);
    hide DaysFromCivil;
    LastDayNumbers();
    DateRoundTrip(last);
    DateRoundTrip(first);
  }

  lemma StartsWithYear(st: Stamp)
    requires InRange(st)
    ensures |Print(st)| >= 1 && Print(st)[0] == Padded(st.date.year, 4)[0]
  {
    hide Padded;
    hide Tail;
  }

  lemma LessByFirst(a: string, b: string)
    requires |a| >= 1 && |b| >= 1 && a[0] < b[0]
    ensures Less(a, b)
  {
  }

  lemma FirstDigits()
    ensures Padded(9999, 4)[0] == '9' && Padded(10_000, 4)[0] == '1'
  {
    assert Padded(9, 1) == "9" && Padded(1, 0) == "1";
    MoreDigits(99, 2);
    MoreDigits(999, 3);
    MoreDigits(9999, 4);
    MoreDigits(10, 1);
    MoreDigits(100, 2);
    MoreDigits(1000, 3);
    MoreDigits(10_000, 4);
  }

  /** The first digit does not change with what follows. */
  lemma MoreDigits(n: nat, w: nat)
    requires n >= 10 && w >= 1
    ensures Padded(n, w)[0] == Padded(n / 10, w - 1)[0]
  {
    hide Digit;
  }

  /** Text order agrees with time order on all times up to t exactly when t is at most the
      last second of year 9999. */
  lemma OrderHoldsUpTo9999(t: nat)
    ensures (forall a: nat, b: nat | a < b <= t :: Less(FormatUtc(a), FormatUtc(b))) <==> t <= LAST_OF_9999
  {
    hide FormatUtc;
    hide Less;
    if t <= LAST_OF_9999 {
      forall a: nat, b: nat | a < b <= t ensures Less(FormatUtc(a), FormatUtc(b)) {
        TextOrderIsTimeOrder(a, b);
      }
    } else {
      var a, b := LAST_OF_9999, LAST_OF_9999 + 1;
      YearTenThousandSortsFirst();
      Asymmetric(FormatUtc(a), FormatUtc(b));
      assert a < b <= t && !Less(FormatUtc(a), FormatUtc(b));
    }
  }

  lemma Asymmetric(a: string, b: string)
    requires Less(b, a)
    ensures !Less(a, b)
  {
  }
}
