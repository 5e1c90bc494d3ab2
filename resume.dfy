/**
 * The résumé page of the Angular application: the experience figure shown
 * next to the current position, the vCard behind the contact QR code, and
 * the browser title.
 *
 * The clock is a parameter: `nowMs` is `+new Date()` and the local calendar
 * day, month and year of that instant are passed alongside it.
 */
module Resume {

  import opened Wrappers
  import opened JsNumber
  import opened JsString

  /** The fields of the profile record that the component reads. */
  datatype Contact = Contact(text: string)
  datatype Human = Human(
    name: string, organization: string, designation: string,
    email: Contact, phone: Contact, address: string)

  // ---------------------------------------------------------------------
  // yearsOfExperience

  /** `new Date('2022-03-16').getTime()`: a date-only string is midnight UTC. */
  const ReferenceMs: int := 1647388800000
  /** `1000 * 3600 * 24`. */
  const DayMs: nat := 86400000

  function Abs(x: int): nat {
    if x < 0 then -x else x
  }

  /** `Math.ceil(Math.abs(now - reference) / day)`: whole days, a started day counting as one. */
  function DiffDays(nowMs: int): (d: nat)
    ensures Abs(nowMs - ReferenceMs) <= d * DayMs < Abs(nowMs - ReferenceMs) + DayMs
  {
    CeilDiv(Abs(nowMs - ReferenceMs), DayMs)
  }

  /** Being `offset` milliseconds before the reference date or after it gives the same figure. */
  lemma DiffDaysSymmetric(offset: int)
    ensures DiffDays(ReferenceMs + offset) == DiffDays(ReferenceMs - offset)
    ensures DiffDays(ReferenceMs + offset) == 0 <==> offset == 0
  {
  }

  /** The text of `yearsOfExperience` for a day count: the branch ladder of the getter. */
  function ExperienceText(diffDays: nat): string {
    if diffDays < 30 then NatToString(diffDays) + " Days"
    else
      var diffMonths, remainingDays := diffDays / 30, diffDays % 30;
      if diffMonths < 12 then
        if remainingDays > 0 then NatToString(diffMonths) + "M+" else NatToString(diffMonths) + "M"
      else
        var diffYears, remainingMonths := diffMonths / 12, diffMonths % 12;
        if remainingMonths > 0 then NatToString(diffYears) + "Y " + NatToString(remainingMonths) + "M"
        else NatToString(diffYears) + "Y"
  }

  /** What an experience text says: days, months (`plus` for a started month) or years and months. */
  datatype Experience = Days(days: nat) | Months(months: nat, plus: bool) | Years(years: nat, months: nat)

  /**
   * The meaning of each form, with months of 30 days and years of 12
   * months: the figure shown is the whole number of units elapsed.
   */
  ghost predicate Describes(e: Experience, diffDays: nat) {
    match e
    case Days(n) => diffDays < 30 && n == diffDays
    case Months(m, plus) => 1 <= m < 12 && 30 * m <= diffDays < 30 * m + 30 && (plus <==> diffDays != 30 * m)
    case Years(y, m) => 1 <= y && m < 12 && 360 * y + 30 * m <= diffDays < 360 * y + 30 * m + 30
  }

  /** Each day count has exactly one description. */
  lemma DescribesUnique(e1: Experience, e2: Experience, diffDays: nat)
    requires Describes(e1, diffDays) && Describes(e2, diffDays)
    ensures e1 == e2
  {
    if e1.Years? && e2.Years? {
      var k1, k2 := 12 * e1.years + e1.months, 12 * e2.years + e2.months;
      assert 30 * k1 <= diffDays < 30 * k1 + 30 && 30 * k2 <= diffDays < 30 * k2 + 30;
      assert k1 == k2;
    }
  }

  /** The longest run of decimal digits at the start of `s`. */
  function TakeDigits(s: string): (r: string)
    ensures r <= s && IsDigits(r)
  {
    if s == [] || !('0' <= s[0] <= '9') then [] else [s[0]] + TakeDigits(s[1..])
  }

  lemma {:induction false} TakeDigitsOf(ds: string, rest: string)
    requires IsDigits(ds)
    requires rest == [] || !('0' <= rest[0] <= '9')
    ensures TakeDigits(ds + rest) == ds
  {
    if ds != [] {
      assert (ds + rest)[1..] == ds[1..] + rest;
      TakeDigitsOf(ds[1..], rest);
    } else {
      assert ds + rest == rest;
    }
  }

  /**
   * Reads an experience text back: a number in plain decimal (no leading
   * zeros), then one of the unit suffixes. Only its canonical spelling reads.
   */
  function ReadExperience(s: string): Option<Experience> {
    var n := TakeDigits(s);
    if n == [] || NatToString(ParseNat(n)) != n then None else ReadUnit(ParseNat(n), s[|n|..])
  }

  function ReadUnit(n: nat, rest: string): Option<Experience> {
    if rest == " Days" then Some(Days(n))
    else if rest == "M" then Some(Months(n, false))
    else if rest == "M+" then Some(Months(n, true))
    else if rest == "Y" then Some(Years(n, 0))
    else if |rest| > 2 && rest[..2] == "Y " then ReadMonthsAfterYears(n, rest[2..])
    else None
  }

  /** The months after the years, in plain decimal; a zero month figure is spelled by leaving it out. */
  function ReadMonthsAfterYears(years: nat, rest: string): Option<Experience> {
    var m := TakeDigits(rest);
    if m != [] && NatToString(ParseNat(m)) == m && ParseNat(m) > 0 && rest[|m|..] == "M"
    then Some(Years(years, ParseNat(m)))
    else None
  }

  /** The one spelling of each experience: its leading figure, then its unit. */
  function Spelled(e: Experience): string {
    NatToString(Lead(e)) + UnitText(e)
  }

  function Lead(e: Experience): nat {
    match e
    case Days(d) => d
    case Months(m, _) => m
    case Years(y, _) => y
  }

  function UnitText(e: Experience): string {
    match e
    case Days(_) => " Days"
    case Months(_, plus) => if plus then "M+" else "M"
    case Years(_, m) => if m == 0 then "Y" else "Y " + NatToString(m) + "M"
  }

  /** A text that reads back is the spelling of what it reads as. */
  lemma ReadCanonical(s: string)
    requires ReadExperience(s).Some?
    ensures s == Spelled(ReadExperience(s).value)
  {
    var n := TakeDigits(s);
    assert s == n + s[|n|..];
    ReadUnitCanonical(ParseNat(n), s[|n|..]);
  }

  lemma ReadUnitCanonical(v: nat, rest: string)
    requires ReadUnit(v, rest).Some?
    ensures Lead(ReadUnit(v, rest).value) == v && rest == UnitText(ReadUnit(v, rest).value)
  {
    if !(rest == " Days" || rest == "M" || rest == "M+" || rest == "Y") {
      assert rest == rest[..2] + rest[2..];
      MonthsAfterYearsCanonical(v, rest[2..]);
    }
  }

  lemma MonthsAfterYearsCanonical(years: nat, tail: string)
    requires ReadMonthsAfterYears(years, tail).Some?
    ensures var e := ReadMonthsAfterYears(years, tail).value;
      e.Years? && e.years == years && e.months > 0 && tail == NatToString(e.months) + "M"
  {
    var m := TakeDigits(tail);
    assert tail == tail[..|m|] + tail[|m|..];
  }

  /** Two texts that read back as the same experience are the same text. */
  lemma ReadInjective(s1: string, s2: string)
    requires ReadExperience(s1).Some? && ReadExperience(s1) == ReadExperience(s2)
    ensures s1 == s2
  {
    ReadCanonical(s1);
    ReadCanonical(s2);
  }

  /**
   * The experience text is determined by the day count: any text that reads
   * back as a description of `diffDays` is the one `yearsOfExperience` shows.
   */
  lemma ExperienceTextDetermined(diffDays: nat, s: string)
    requires ReadExperience(s).Some? && Describes(ReadExperience(s).value, diffDays)
    ensures s == ExperienceText(diffDays)
  {
    ExperienceTextMeans(diffDays);
    DescribesUnique(ReadExperience(s).value, ReadExperience(ExperienceText(diffDays)).value, diffDays);
    ReadInjective(s, ExperienceText(diffDays));
  }

  /** A number followed by a suffix that starts with no digit reads back as that number and suffix. */
  lemma ReadNumber(n: nat, suffix: string)
    requires suffix == [] || !('0' <= suffix[0] <= '9')
    ensures var s := NatToString(n) + suffix;
      TakeDigits(s) == NatToString(n) && s[|NatToString(n)|..] == suffix && ParseNat(TakeDigits(s)) == n
  {
    TakeDigitsOf(NatToString(n), suffix);
    ParseNatToString(n);
  }

  /** Reading a printed number and a unit is reading the unit for that number. */
  lemma ReadNumberUnit(n: nat, unit: string)
    requires unit == [] || !('0' <= unit[0] <= '9')
    ensures ReadExperience(NatToString(n) + unit) == ReadUnit(n, unit)
  {
    ReadNumber(n, unit);
  }

  /**
   * The experience text always reads back, and what it says is what the day
   * count means: under 30 days the days; under 12 months the months, `+`
   * exactly when days are left over; otherwise years and the months left,
   * the months omitted when there are none and leftover days ignored.
   */
  lemma ExperienceTextMeans(diffDays: nat)
    ensures ReadExperience(ExperienceText(diffDays)).Some?
    ensures Describes(ReadExperience(ExperienceText(diffDays)).value, diffDays)
    ensures ExperienceText(diffDays) == Spelled(ReadExperience(ExperienceText(diffDays)).value)
  {
    if diffDays < 30 {
      ReadNumber(diffDays, " Days");
    } else if diffDays / 30 < 12 {
      ReadMonths(diffDays);
    } else {
      ReadYears(diffDays);
    }
    ReadCanonical(ExperienceText(diffDays));
  }

  lemma ReadMonths(diffDays: nat)
    requires 30 <= diffDays && diffDays / 30 < 12
    ensures ReadExperience(ExperienceText(diffDays)) == Some(Months(diffDays / 30, diffDays % 30 > 0))
    ensures Describes(Months(diffDays / 30, diffDays % 30 > 0), diffDays)
  {
    var months := diffDays / 30;
    if diffDays % 30 > 0 {
      assert ExperienceText(diffDays) == NatToString(months) + "M+";
      ReadNumberUnit(months, "M+");
    } else {
      assert ExperienceText(diffDays) == NatToString(months) + "M";
      ReadNumberUnit(months, "M");
    }
  }

  lemma ReadYears(diffDays: nat)
    requires diffDays / 30 >= 12
    ensures ReadExperience(ExperienceText(diffDays)) == Some(Years(diffDays / 30 / 12, diffDays / 30 % 12))
    ensures Describes(Years(diffDays / 30 / 12, diffDays / 30 % 12), diffDays)
  {
    var months := diffDays / 30;
    var years, left := months / 12, months % 12;
    assert 360 * years + 30 * left <= diffDays < 360 * years + 30 * left + 30;
    if left > 0 {
      assert ExperienceText(diffDays) == NatToString(years) + "Y " + NatToString(left) + "M";
      ReadYearsAndMonths(years, left);
    } else {
      assert ExperienceText(diffDays) == NatToString(years) + "Y";
      ReadNumberUnit(years, "Y");
    }
  }

  lemma ReadYearsAndMonths(years: nat, left: nat)
    requires left > 0
    ensures ReadExperience(NatToString(years) + "Y " + NatToString(left) + "M") == Some(Years(years, left))
  {
    var tail := NatToString(left) + "M";
    var rest := "Y " + tail;
    assert NatToString(years) + "Y " + NatToString(left) + "M" == NatToString(years) + rest;
    ReadNumberUnit(years, rest);
    assert rest[..2] == "Y " && rest[2..] == tail;
    assert rest != " Days" && rest != "M" && rest != "M+" && rest != "Y" by {
      assert rest[0] == 'Y' && |rest| > 2;
    }
    ReadNumber(left, "M");
  }

  /** Under a month the figure is in days: 29 days read `29 Days`. */
  lemma ExperienceDaysExample()
    ensures ExperienceText(29) == "29 Days"
  {
  }

  /** 45 days are one started month, `1M+`; 60 days are exactly `2M`. */
  lemma ExperienceMonthsExample()
    ensures ExperienceText(45) == "1M+" && ExperienceText(60) == "2M"
  {
  }

  /** 400 days are one year and one month, `1Y 1M`; 730 days are `2Y`, the leftover days dropped. */
  lemma ExperienceYearsExample()
    ensures ExperienceText(400) == "1Y 1M" && ExperienceText(730) == "2Y"
  {
  }

  // ---------------------------------------------------------------------
  // vCardData

  /** `name.split(' ')[i]`, which prints as `undefined` past the last word. */
  function NameWord(name: string, i: nat): string {
    var words := Split(name, ' ');
    if i < |words| then words[i] else "undefined"
  }

  /** The lines of the `vCardData` template, in order. */
  function VCardLineList(h: Human): seq<string> {
    [ "BEGIN:VCARD",
      "VERSION:3.0",
      "N:" + NameWord(h.name, 1) + ";" + NameWord(h.name, 0),
      "ORG:" + h.organization,
      "TITLE:" + h.designation,
      "EMAIL;TYPE=INTERNET:" + h.email.text,
      "TEL;TYPE=voice,work,pref,CELL:+91" + h.phone.text,
      "ADR:;;" + h.address,
      "END:VCARD" ]
  }

  /** The `vCardData` text: every template line followed by a line break. */
  function VCard(h: Human): string {
    Terminated(VCardLineList(h), '\n')
  }

  /** No field of the profile holds a line break. */
  predicate SingleLineFields(h: Human) {
    && '\n' !in h.name && '\n' !in h.organization && '\n' !in h.designation
    && '\n' !in h.email.text && '\n' !in h.phone.text && '\n' !in h.address
  }

  lemma VCardLines(h: Human)
    requires SingleLineFields(h)
    ensures Split(VCard(h), '\n') == [
      "BEGIN:VCARD",
      "VERSION:3.0",
      "N:" + NameWord(h.name, 1) + ";" + NameWord(h.name, 0),
      "ORG:" + h.organization,
      "TITLE:" + h.designation,
      "EMAIL;TYPE=INTERNET:" + h.email.text,
      "TEL;TYPE=voice,work,pref,CELL:+91" + h.phone.text,
      "ADR:;;" + h.address,
      "END:VCARD",
      ""]
  {
    var nl := '\n';
    SplitAvoids(h.name, ' ', nl);
    assert nl !in NameWord(h.name, 1) && nl !in NameWord(h.name, 0);
    HeaderTextsSingleLine();
    ContactTextsSingleLine();
    ClosingTextsSingleLine();
    var ls := VCardLineList(h);
    assert nl !in ls[0] && nl !in ls[1] && nl !in ls[2];
    assert nl !in ls[3] && nl !in ls[4] && nl !in ls[5];
    assert nl !in ls[6] && nl !in ls[7] && nl !in ls[8];
    SplitTerminated(ls, nl);
  }

  /** Whatever the profile holds, the card opens with the BEGIN and VERSION lines and closes with END. */
  lemma VCardFraming(h: Human)
    ensures |VCard(h)| >= 34
    ensures VCard(h)[..24] == "BEGIN:VCARD\nVERSION:3.0\n"
    ensures VCard(h)[|VCard(h)| - 10..] == "END:VCARD\n"
  {
    var ls := VCardLineList(h);
    assert ls == ls[..2] + ls[2..];
    TerminatedAppend(ls[..2], ls[2..], '\n');
    TerminatedTwo(ls[0], ls[1], '\n');
    assert ls[..2] == [ls[0], ls[1]];
  }

  // The fixed texts of the template hold no line break.

  lemma HeaderTextsSingleLine()
    ensures '\n' !in "BEGIN:VCARD" && '\n' !in "VERSION:3.0" && '\n' !in "N:" && '\n' !in ";"
  {
  }

  lemma ContactTextsSingleLine()
    ensures '\n' !in "ORG:" && '\n' !in "TITLE:" && '\n' !in "EMAIL;TYPE=INTERNET:"
  {
  }

  lemma ClosingTextsSingleLine()
    ensures '\n' !in "TEL;TYPE=voice,work,pref,CELL:+91" && '\n' !in "ADR:;;" && '\n' !in "END:VCARD"
  {
  }

  /** For a two-word name `first last` the N line is `N:last;first`: family name, then given name. */
  lemma VCardTwoWordName(h: Human, first: string, last: string)
    requires h.name == first + " " + last && ' ' !in first && ' ' !in last
    ensures "N:" + NameWord(h.name, 1) + ";" + NameWord(h.name, 0) == "N:" + last + ";" + first
  {
    SplitJoin([first, last], ' ');
    assert Join([first, last], " ") == first + " " + last;
  }

  /** A one-word name leaves no family name: the N line is `N:undefined;name`. */
  lemma VCardOneWordName(h: Human)
    requires ' ' !in h.name
    ensures "N:" + NameWord(h.name, 1) + ";" + NameWord(h.name, 0) == "N:undefined;" + h.name
  {
    SplitJoin([h.name], ' ');
  }

  // ---------------------------------------------------------------------
  // The title

  const TitleHead: string := "Resume_"
  const TitleMiddle: string := "_dotNET_n_Angular__"

  /**
   * The text given to `setTitle`: the name with its first space made `_`,
   * then the timestamp and the local day, month (1 to 12) and year.
   */
  function PageTitle(name: string, nowMs: int, date: nat, month0: nat, fullYear: int): string {
    TitleHead + ReplaceFirst(name, ' ', '_') + TitleMiddle + TitleTail(nowMs, date, month0, fullYear)
  }

  /** `${+dt}_${dt.getDate()}_${dt.getMonth() + 1}_${dt.getFullYear()}`. */
  function TitleTail(nowMs: int, date: nat, month0: nat, fullYear: int): string {
    IntToString(nowMs) + "_" + NatToString(date) + "_" + NatToString(month0 + 1) + "_" + IntToString(fullYear)
  }

  /**
   * The title starts with its head, then spells the name with only its
   * first space replaced by `_`, then the middle part.
   */
  lemma PageTitleName(name: string, nowMs: int, date: nat, month0: nat, fullYear: int)
    ensures var t, h := PageTitle(name, nowMs, date, month0, fullYear), |TitleHead|;
      && h + |name| + |TitleMiddle| <= |t|
      && t[..h] == TitleHead
      && t[h + |name|..h + |name| + |TitleMiddle|] == TitleMiddle
      && var shown := t[h..h + |name|];
      && (' ' !in name ==> shown == name)
      && (' ' in name ==> shown[IndexOf(name, ' ')] == '_')
      && (' ' in name ==> forall k :: 0 <= k < |name| && k != IndexOf(name, ' ') ==> shown[k] == name[k])
  {
    var t, h := PageTitle(name, nowMs, date, month0, fullYear), |TitleHead|;
    var r := ReplaceFirst(name, ' ', '_');
    NameInTitle(TitleHead, r, TitleMiddle, TitleTail(nowMs, date, month0, fullYear));
    ReplacedName(name, t[h..h + |name|]);
  }

  /** What `replace(' ', '_')` leaves of a name. */
  lemma ReplacedName(name: string, shown: string)
    requires shown == ReplaceFirst(name, ' ', '_')
    ensures ' ' !in name ==> shown == name
    ensures ' ' in name ==> shown[IndexOf(name, ' ')] == '_'
    ensures ' ' in name ==> forall k :: 0 <= k < |name| && k != IndexOf(name, ' ') ==> shown[k] == name[k]
  {
  }

  lemma NameInTitle(head: string, r: string, middle: string, tail: string)
    ensures var t := head + r + middle + tail;
      && t[..|head|] == head
      && t[|head|..|head| + |r|] == r
      && t[|head| + |r|..|head| + |r| + |middle|] == middle
  {
    var t := head + r + middle + tail;
    assert t == head + (r + (middle + tail));
  }

  /** The résumé component: the profile, the instant it was created, and the title it set. */
  class ResumeComponent {
    const data: Human
    const dt: int
    /** The text handed to `Title.setTitle`. */
    const title: string

    constructor (data: Human, nowMs: int, date: nat, month0: nat, fullYear: int)
      ensures this.data == data && dt == nowMs
      ensures title == PageTitle(data.name, nowMs, date, month0, fullYear)
    {
      this.data := data;
      dt := nowMs;
      title := PageTitle(data.name, nowMs, date, month0, fullYear);
    }

    /** The `vCardData` getter: a card that opens, declares version 3.0 and closes, one line per field. */
    function VCardData(): (r: string)
      ensures |r| >= 34 && r[..24] == "BEGIN:VCARD\nVERSION:3.0\n" && r[|r| - 10..] == "END:VCARD\n"
    ensures SingleLineFields(data) ==> var ls := Split(r, '\n');
        && |ls| == 10 && ls[0] == "BEGIN:VCARD" && ls[1] == "VERSION:3.0" && ls[8] == "END:VCARD" && ls[9] == ""
        && ls[6] == "TEL;TYPE=voice,work,pref,CELL:+91" + data.phone.text
    {
      VCardFraming(data);
      if SingleLineFields(data) then VCardLines(data); VCard(data) else VCard(data)
    }

    /** The `yearsOfExperience` getter: a text that reads back as the elapsed time since the reference date. */
    function YearsOfExperience(): (r: string)
      ensures ReadExperience(r).Some? && Describes(ReadExperience(r).value, DiffDays(dt))
      ensures r == Spelled(ReadExperience(r).value)
    {
      ExperienceTextMeans(DiffDays(dt));
      ExperienceText(DiffDays(dt))
    }
  }
}
