/** How the writer names an export file (src/index.js:57-58): the current instant in
    `toISOString` form with `:` and `.` turned into `-`, framed by the node name. */
module Naming {
  import opened Text

  /** A UTC instant split into the fields `Date.prototype.toISOString` prints. */
  datatype Instant = Instant(year: nat, month: nat, day: nat, hour: nat, minute: nat, second: nat, millis: nat)
  {
    /** Years 0000-9999, where `toISOString` prints a four-digit year, and in-range fields. */
    predicate Valid()
    {
      year <= 9999 && 1 <= month <= 12 && 1 <= day <= 31 && hour < 24 && minute < 60 &&
      second < 60 && millis < 1000
    }
  }

  /** Chronological order of instants: field by field, most significant first. */
  predicate Earlier(a: Instant, b: Instant)
  {
    || a.year < b.year
    || (a.year == b.year && a.month < b.month)
    || (a.year == b.year && a.month == b.month && a.day < b.day)
    || (a.year == b.year && a.month == b.month && a.day == b.day && a.hour < b.hour)
    || (a.year == b.year && a.month == b.month && a.day == b.day && a.hour == b.hour &&
        a.minute < b.minute)
    || (a.year == b.year && a.month == b.month && a.day == b.day && a.hour == b.hour &&
        a.minute == b.minute && a.second < b.second)
    || (a.year == b.year && a.month == b.month && a.day == b.day && a.hour == b.hour &&
        a.minute == b.minute && a.second == b.second && a.millis < b.millis)
  }

  function Pow10(w: nat): nat
  {
    if w == 0 then 1 else 10 * Pow10(w - 1)
  }

  function DigitChar(d: nat): (c: char)
    requires d < 10
    ensures IsDigit(c)
  {
    ('0' as int + d) as char
  }

  /** The decimal value of a string of ASCII digits. */
  function Value(s: string): nat
    requires forall i :: 0 <= i < |s| ==> IsDigit(s[i])
  {
    if s == [] then 0
    else
      assert IsDigit(s[|s| - 1]);
      10 * Value(s[..|s| - 1]) + (s[|s| - 1] as int - '0' as int)
  }

  /** `n` printed in exactly `w` decimal digits, zero-padded on the left. */
  function Digits(n: nat, w: nat): (r: string)
    requires n < Pow10(w)
    ensures |r| == w
    ensures forall i :: 0 <= i < w ==> IsDigit(r[i])
  {
    if w == 0 then "" else Digits(n / 10, w - 1) + [DigitChar(n % 10)]
  }

  /** Reading the digits back gives the number printed. */
  lemma {:induction false} DigitsValue(n: nat, w: nat)
    requires n < Pow10(w)
    ensures Value(Digits(n, w)) == n
  {
    if w > 0 {
      DigitsValue(n / 10, w - 1);
      var d := Digits(n, w);
      assert d[..|d| - 1] == Digits(n / 10, w - 1);
    }
  }

  /** Fixed-width digit strings sort as the numbers they print. */
  lemma {:induction false} DigitsOrder(a: nat, b: nat, w: nat)
    requires a < Pow10(w) && b < Pow10(w)
    ensures Less(Digits(a, w), Digits(b, w)) <==> a < b
  {
    if w > 0 {
      DigitsOrder(a / 10, b / 10, w - 1);
      DigitsValue(a / 10, w - 1);
      DigitsValue(b / 10, w - 1);
      LessConcat(Digits(a / 10, w - 1), [DigitChar(a % 10)], Digits(b / 10, w - 1), [DigitChar(b % 10)]);
    }
  }

  /** Equal-width digit strings are equal exactly when their numbers are. */
  lemma DigitsInjective(a: nat, b: nat, w: nat)
    requires a < Pow10(w) && b < Pow10(w)
    ensures Digits(a, w) == Digits(b, w) <==> a == b
  {
    DigitsValue(a, w);
    DigitsValue(b, w);
  }

  /** `toISOString()`: `YYYY-MM-DDTHH:mm:ss.sssZ`. */
  function IsoString(t: Instant): (r: string)
    requires t.Valid()
    ensures Fits(r, "DDDD-DD-DDTDD:DD:DD.DDDZ")
  {
    Digits(t.year, 4) + "-" + Digits(t.month, 2) + "-" + Digits(t.day, 2) + "T" +
    Digits(t.hour, 2) + ":" + Digits(t.minute, 2) + ":" + Digits(t.second, 2) + "." +
    Digits(t.millis, 3) + "Z"
  }

  predicate IsSeparator(c: char)
  {
    c == ':' || c == '.'
  }

  /** `s.replace(/[:.]/g, "-")`: every colon and period becomes a hyphen, nothing else moves. */
  function Sanitize(s: string): (r: string)
    ensures |r| == |s|
    ensures forall i :: 0 <= i < |s| ==> r[i] == (if IsSeparator(s[i]) then '-' else s[i])
    ensures forall i :: 0 <= i < |r| ==> !IsSeparator(r[i])
  {
    if s == [] then "" else [if IsSeparator(s[0]) then '-' else s[0]] + Sanitize(s[1..])
  }

  /** Two strings of one shape: same length, and wherever either has a colon or a period
      the other has the same character. */
  predicate SameShape(a: string, b: string)
  {
    |a| == |b| &&
    forall i :: 0 <= i < |a| ==> (IsSeparator(a[i]) || IsSeparator(b[i]) ==> a[i] == b[i])
  }

  /** Replacing separators does not reorder strings of one shape. */
  lemma {:induction false} SanitizeKeepsOrder(a: string, b: string)
    requires SameShape(a, b)
    ensures Less(Sanitize(a), Sanitize(b)) <==> Less(a, b)
  {
    if a != [] {
      assert Sanitize(a)[1..] == Sanitize(a[1..]);
      assert Sanitize(b)[1..] == Sanitize(b[1..]);
      assert SameShape(a[1..], b[1..]) by {
        forall i | 0 <= i < |a[1..]|
          ensures IsSeparator(a[1..][i]) || IsSeparator(b[1..][i]) ==> a[1..][i] == b[1..][i]
        {
          assert a[1..][i] == a[i + 1] && b[1..][i] == b[i + 1];
        }
      }
      SanitizeKeepsOrder(a[1..], b[1..]);
    }
  }

  /** The timestamp the writer puts in a filename. */
  function Stamp(t: Instant): (r: string)
    requires t.Valid()
    ensures Fits(r, "DDDD-DD-DDTDD-DD-DD-DDDZ")
  {
    var iso := IsoString(t);
    var r := Sanitize(iso);
    assert forall i | 0 <= i < |r| :: r[i] == (if IsSeparator(iso[i]) then '-' else iso[i]);
    r
  }

  /** The filename timestamp, field by field: the ISO form with hyphens for its separators. */
  lemma StampFields(t: Instant)
    requires t.Valid()
    ensures Stamp(t) ==
      Digits(t.year, 4) + "-" + Digits(t.month, 2) + "-" + Digits(t.day, 2) + "T" +
      Digits(t.hour, 2) + "-" + Digits(t.minute, 2) + "-" + Digits(t.second, 2) + "-" +
      Digits(t.millis, 3) + "Z"
  {
    var iso, stamp := IsoString(t), Stamp(t);
    var hyphenated :=
      Digits(t.year, 4) + "-" + Digits(t.month, 2) + "-" + Digits(t.day, 2) + "T" +
      Digits(t.hour, 2) + "-" + Digits(t.minute, 2) + "-" + Digits(t.second, 2) + "-" +
      Digits(t.millis, 3) + "Z";
    forall i | 0 <= i < 24 ensures stamp[i] == hyphenated[i] {
      assert stamp[i] == if IsSeparator(iso[i]) then '-' else iso[i];
    }
  }

  /** One field and the separator after it: the field decides unless it ties. */
  lemma FieldThenRest(a: nat, b: nat, w: nat, sep: string, r1: string, r2: string)
    requires a < Pow10(w) && b < Pow10(w)
    ensures Less(Digits(a, w) + (sep + r1), Digits(b, w) + (sep + r2)) <==>
            a < b || (a == b && Less(r1, r2))
  {
    LessConcat(Digits(a, w), sep + r1, Digits(b, w), sep + r2);
    LessConcat(sep, r1, sep, r2);
    LessIrreflexive(sep);
    DigitsOrder(a, b, w);
    DigitsInjective(a, b, w);
  }

  /** The ISO form, regrouped field by field. */
  lemma IsoFields(t: Instant)
    requires t.Valid()
    ensures IsoString(t) ==
      Digits(t.year, 4) + ("-" + (Digits(t.month, 2) + ("-" + (Digits(t.day, 2) + ("T" +
      (Digits(t.hour, 2) + (":" + (Digits(t.minute, 2) + (":" + (Digits(t.second, 2) + ("." +
      (Digits(t.millis, 3) + ("Z" + "")))))))))))))
  {
  }

  /** `toISOString` output sorts in chronological order. */
  lemma IsoChronological(a: Instant, b: Instant)
    requires a.Valid() && b.Valid()
    ensures Less(IsoString(a), IsoString(b)) <==> Earlier(a, b)
  {
    IsoFields(a);
    IsoFields(b);
    FieldThenRest(a.millis, b.millis, 3, "Z", "", "");
    FieldThenRest(a.second, b.second, 2, ".",
      Digits(a.millis, 3) + ("Z" + ""), Digits(b.millis, 3) + ("Z" + ""));
    FieldThenRest(a.minute, b.minute, 2, ":",
      Digits(a.second, 2) + ("." + (Digits(a.millis, 3) + ("Z" + ""))),
      Digits(b.second, 2) + ("." + (Digits(b.millis, 3) + ("Z" + ""))));
    FieldThenRest(a.hour, b.hour, 2, ":",
      Digits(a.minute, 2) + (":" + (Digits(a.second, 2) + ("." + (Digits(a.millis, 3) + ("Z" + ""))))),
      Digits(b.minute, 2) + (":" + (Digits(b.second, 2) + ("." + (Digits(b.millis, 3) + ("Z" + ""))))));
    FieldThenRest(a.day, b.day, 2, "T",
      Digits(a.hour, 2) + (":" + (Digits(a.minute, 2) + (":" + (Digits(a.second, 2) + ("." +
        (Digits(a.millis, 3) + ("Z" + ""))))))),
      Digits(b.hour, 2) + (":" + (Digits(b.minute, 2) + (":" + (Digits(b.second, 2) + ("." +
        (Digits(b.millis, 3) + ("Z" + ""))))))));
    FieldThenRest(a.month, b.month, 2, "-",
      Digits(a.day, 2) + ("T" + (Digits(a.hour, 2) + (":" + (Digits(a.minute, 2) + (":" +
        (Digits(a.second, 2) + ("." + (Digits(a.millis, 3) + ("Z" + ""))))))))),
      Digits(b.day, 2) + ("T" + (Digits(b.hour, 2) + (":" + (Digits(b.minute, 2) + (":" +
        (Digits(b.second, 2) + ("." + (Digits(b.millis, 3) + ("Z" + ""))))))))));
    FieldThenRest(a.year, b.year, 4, "-",
      Digits(a.month, 2) + ("-" + (Digits(a.day, 2) + ("T" + (Digits(a.hour, 2) + (":" +
        (Digits(a.minute, 2) + (":" + (Digits(a.second, 2) + ("." + (Digits(a.millis, 3) +
        ("Z" + ""))))))))))),
      Digits(b.month, 2) + ("-" + (Digits(b.day, 2) + ("T" + (Digits(b.hour, 2) + (":" +
        (Digits(b.minute, 2) + (":" + (Digits(b.second, 2) + ("." + (Digits(b.millis, 3) +
        ("Z" + ""))))))))))));
  }

  /** Strings fitting one template have one shape, since digits are not separators. */
  lemma FitsSameShape(a: string, b: string, tmpl: string)
    requires Fits(a, tmpl) && Fits(b, tmpl)
    ensures SameShape(a, b)
  {
    forall i | 0 <= i < |a| ensures IsSeparator(a[i]) || IsSeparator(b[i]) ==> a[i] == b[i] {
      if tmpl[i] == 'D' {
        assert IsDigit(a[i]) && IsDigit(b[i]);
      }
    }
  }

  /** Filename timestamps sort in creation order, down to the millisecond. */
  lemma StampChronological(a: Instant, b: Instant)
    requires a.Valid() && b.Valid()
    ensures Less(Stamp(a), Stamp(b)) <==> Earlier(a, b)
  {
    FitsSameShape(IsoString(a), IsoString(b), "DDDD-DD-DDTDD:DD:DD.DDDZ");
    SanitizeKeepsOrder(IsoString(a), IsoString(b));
    IsoChronological(a, b);
  }

  /** `toISOString().slice(0, 10)`: the UTC calendar day, which is also how every
      timestamp written at that instant begins. */
  function Today(t: Instant): (r: string)
    requires t.Valid()
    ensures Fits(r, "DDDD-DD-DD")
    ensures r == Stamp(t)[..10]
  {
    var iso := IsoString(t);
    assert forall i | 0 <= i < 10 :: Stamp(t)[i] == iso[i];
    iso[..10]
  }

  const ExportPrefix: string := "notes-export-"

  /** The name the writer gives an export: `notes-export-<nodeName>-<stamp>.json`. */
  function FileName(nodeName: string, stamp: string): (r: string)
    ensures |r| == |ExportPrefix| + |nodeName| + 1 + |stamp| + 5
    ensures r[..|ExportPrefix|] == ExportPrefix
    ensures r[|ExportPrefix|..|ExportPrefix| + |nodeName|] == nodeName
    ensures r[|ExportPrefix| + |nodeName|] == '-'
    ensures r[|ExportPrefix| + |nodeName| + 1..|r| - 5] == stamp
    ensures r[|r| - 5..] == ".json"
  {
    ExportPrefix + nodeName + "-" + stamp + ".json"
  }
}
