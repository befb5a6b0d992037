/**
 * Partition file naming: `get_filename`, the export file name, and the
 * directory scan of `get_available_months`.
 */
module Partitions {
  import opened Outcomes
  import opened Text
  import opened Numerals
  import opened Reading
  import opened Ordering
  import opened Records
  import opened Selection

  const Prefix: string := "requests_"
  const JsonExt: string := ".json"
  const CsvExt: string := ".csv"
  const ClientsFile: string := "clients.json"

  /** `{year}_{month:02d}`, the part of a partition name that carries the month. */
  function Inner(key: MonthKey): string {
    Str(key.year) + "_" + Pad2(key.month)
  }

  /** `requests_{year}_{month:02d}`, shared by the partition and export names. */
  function Stem(key: MonthKey): string {
    Prefix + Inner(key)
  }

  /** The base name `get_filename` gives a month's partition file. */
  function FileName(key: MonthKey): string {
    Stem(key) + JsonExt
  }

  /** The attachment name `export_requests` gives a month's CSV file. */
  function ExportName(key: MonthKey): string {
    Stem(key) + CsvExt
  }

  /** What the scan makes of one directory entry: not a partition, a
      partition of the given month, or a partition-like name whose numbers
      `int()` rejects, which raises and aborts the whole scan. */
  datatype Scan = Skip | Month(key: MonthKey) | Malformed

  /** The body of the loop in `get_available_months` for one file name. */
  function ScanName(name: string): Scan {
    if StartsWith(name, Prefix) && EndsWith(name, JsonExt) then
      var parts := Split(RemoveAll(RemoveAll(name, Prefix), JsonExt), '_');
      if |parts| == 2 then
        match (ParseInt(parts[0]), ParseInt(parts[1]))
        case (Some(y), Some(m)) => Month(MonthKey(y, m))
        case _ => Malformed
      else Skip
    else Skip
  }

  /** The scan of each name of a listing, in order. */
  function ScanAll(names: seq<string>): (scans: seq<Scan>)
    ensures |scans| == |names|
    ensures forall i :: 0 <= i < |names| ==> scans[i] == ScanName(names[i])
  {
    if |names| == 0 then [] else [ScanName(names[0])] + ScanAll(names[1..])
  }

  /** The loop of `get_available_months` over the scanned names, in order:
      months are appended, other names skipped, and a malformed name aborts. */
  function Collect(scans: seq<Scan>): Option<seq<MonthKey>> {
    if |scans| == 0 then Some([])
    else
      match scans[0]
      case Malformed => None
      case Skip => Collect(scans[1..])
      case Month(k) =>
        match Collect(scans[1..])
        case None => None
        case Some(ks) => Some([k] + ks)
  }

  /** `get_available_months` given the directory listing: the names sorted
      in reverse, then scanned. `None` stands for the `ValueError` raised by
      a partition-like name with a non-numeric part. */
  function AvailableMonths(listing: seq<string>): Option<seq<MonthKey>> {
    Collect(ScanAll(SortDescending(listing)))
  }

  /** The month part holds only digits, '-' and one '_', so neither the
      prefix nor the extension can start inside it. */
  lemma InnerChars(key: MonthKey)
    ensures forall i :: 0 <= i < |Inner(key)| ==> Inner(key)[i] != 'r' && Inner(key)[i] != '.'
    ensures '_' !in Str(key.year) && '_' !in Pad2(key.month)
  {
    var a, b := Str(key.year), Pad2(key.month);
    NumeralsOfDigits(key.year);
    NumeralsOfDigits(key.month);
    var inner := Inner(key);
    forall i | 0 <= i < |inner| ensures inner[i] != 'r' && inner[i] != '.' {
      if i < |a| {
        assert inner[i] == a[i];
      } else if i > |a| {
        assert inner[i] == b[i - |a| - 1];
      }
    }
  }

  /** Removing every `requests_` from a partition name leaves the month part and the extension. */
  lemma RemovePrefix(key: MonthKey)
    ensures RemoveAll(FileName(key), Prefix) == Inner(key) + JsonExt
  {
    var rest := Inner(key) + JsonExt;
    var name := FileName(key);
    InnerChars(key);
    assert name == Prefix + rest;
    assert name[..|Prefix|] == Prefix && name[|Prefix|..] == rest;
    assert forall i :: 0 <= i < |rest| ==> rest[i] != Prefix[0];
    RemoveAllSkips(rest, [], Prefix);
    assert rest + [] == rest;
  }

  /** Removing every `.json` from the month part and extension leaves the month part. */
  lemma RemoveExt(key: MonthKey)
    ensures RemoveAll(Inner(key) + JsonExt, JsonExt) == Inner(key)
  {
    InnerChars(key);
    RemoveAllSkips(Inner(key), JsonExt, JsonExt);
    assert RemoveAll(JsonExt, JsonExt) == [];
  }

  /** The month part splits at its one '_' into the year and month numerals. */
  lemma SplitInner(key: MonthKey)
    ensures Split(Inner(key), '_') == [Str(key.year), Pad2(key.month)]
  {
    InnerChars(key);
    var parts := [Str(key.year), Pad2(key.month)];
    assert Join(parts, '_') == Inner(key);
    SplitJoin(parts, '_');
  }

  /** A partition name passes the prefix and extension test of the scan. */
  lemma NameEnds(key: MonthKey)
    ensures StartsWith(FileName(key), Prefix) && EndsWith(FileName(key), JsonExt)
  {
    var name := FileName(key);
    assert name == Prefix + (Inner(key) + JsonExt);
    assert name[..|Prefix|] == Prefix;
  }

  /** A name that passes the prefix and extension test and splits into two
      numerals is scanned as the month they denote. */
  lemma ScanOfParts(name: string, a: string, b: string, y: int, m: int)
    requires StartsWith(name, Prefix) && EndsWith(name, JsonExt)
    requires Split(RemoveAll(RemoveAll(name, Prefix), JsonExt), '_') == [a, b]
    requires ParseInt(a) == Some(y) && ParseInt(b) == Some(m)
    ensures ScanName(name) == Month(MonthKey(y, m))
  {
  }

  /** The scan reads every partition name back as the month it was written
      for, whatever the year and month. */
  lemma FileNameRoundTrip(key: MonthKey)
    ensures ScanName(FileName(key)) == Month(key)
  {
    NameEnds(key);
    RemovePrefix(key);
    RemoveExt(key);
    SplitInner(key);
    StrRoundTrip(key.year);
    Pad2RoundTrip(key.month);
    ScanOfParts(FileName(key), Str(key.year), Pad2(key.month), key.year, key.month);
  }

  /** Distinct months have distinct partition files. */
  lemma FileNameInjective(k1: MonthKey, k2: MonthKey)
    requires FileName(k1) == FileName(k2)
    ensures k1 == k2
  {
    FileNameRoundTrip(k1);
    FileNameRoundTrip(k2);
  }

  /** Distinct months have distinct export attachment names. */
  lemma ExportNameInjective(k1: MonthKey, k2: MonthKey)
    requires ExportName(k1) == ExportName(k2)
    ensures k1 == k2
  {
    var s1, s2 := Stem(k1), Stem(k2);
    assert s1 == ExportName(k1)[..|ExportName(k1)| - |CsvExt|];
    assert s2 == ExportName(k2)[..|ExportName(k2)| - |CsvExt|];
    assert FileName(k1) == FileName(k2);
    FileNameInjective(k1, k2);
  }

  /** The client file is never taken for a partition. */
  lemma ClientsFileSkipped()
    ensures ScanName(ClientsFile) == Skip
  {
    assert ClientsFile[..|Prefix|] != Prefix by {
      assert ClientsFile[0] == 'c' != Prefix[0];
    }
  }

  /** `k1` is an earlier month than `k2`. */
  predicate Earlier(k1: MonthKey, k2: MonthKey) {
    k1.year < k2.year || (k1.year == k2.year && k1.month < k2.month)
  }

  /** A month whose year has four digits and whose month is 1-12, the range
      in which partition names sort as their months do. */
  predicate CalendarRange(k: MonthKey) {
    1000 <= k.year <= 9999 && 1 <= k.month <= 12
  }

  lemma FourDigits(n: nat)
    requires 1000 <= n <= 9999
    ensures |Digits(n)| == 4
  {
    assert |Digits(n / 10)| == 3 by {
      assert |Digits(n / 100)| == 2 by {
        assert |Digits(n / 1000)| == 1;
      }
    }
  }

  /** Two-digit month numerals compare as the months. */
  lemma BelowPad2(m1: int, m2: int)
    requires 0 <= m1 < 100 && 0 <= m2 < 100
    ensures Below(Pad2(m1), Pad2(m2)) <==> m1 < m2
  {
    Pad2Shape(m1);
    Pad2Shape(m2);
    var a1, b1, a2, b2 := DigitChar(m1 / 10), DigitChar(m1 % 10), DigitChar(m2 / 10), DigitChar(m2 % 10);
    assert Below([b1], [b2]) <==> b1 < b2;
    assert Below([a1, b1], [a2, b2]) <==> a1 < a2 || (a1 == a2 && Below([b1], [b2])) by {
      assert [a1, b1][1..] == [b1] && [a2, b2][1..] == [b2];
    }
  }

  /** A partition name of a month with a non-negative year, cut where the
      order comparison needs it. */
  lemma NameParts(k: MonthKey)
    requires k.year >= 0
    ensures FileName(k) == Prefix + (Digits(k.year) + ("_" + (Pad2(k.month) + JsonExt)))
  {
  }

  /** The common `requests_` does not decide the order of two partition names. */
  lemma NamesBelow(k1: MonthKey, k2: MonthKey)
    requires k1.year >= 0 && k2.year >= 0
    ensures Below(FileName(k1), FileName(k2)) <==>
      Below(Digits(k1.year) + ("_" + (Pad2(k1.month) + JsonExt)), Digits(k2.year) + ("_" + (Pad2(k2.month) + JsonExt)))
  {
    NameParts(k1);
    NameParts(k2);
    BelowCommonPrefix(Prefix, Digits(k1.year) + ("_" + (Pad2(k1.month) + JsonExt)),
                              Digits(k2.year) + ("_" + (Pad2(k2.month) + JsonExt)));
  }

  /** Year numerals of four digits decide the order of what follows them. */
  lemma YearOrder(y1: int, y2: int, t1: string, t2: string)
    requires 1000 <= y1 <= 9999 && 1000 <= y2 <= 9999 && y1 != y2
    ensures Below(Digits(y1) + t1, Digits(y2) + t2) <==> y1 < y2
  {
    var d1, d2 := Digits(y1), Digits(y2);
    FourDigits(y1);
    FourDigits(y2);
    assert d1 != d2 by {
      if d1 == d2 {
        DigitsInjective(y1, y2);
      }
    }
    BelowDifferentHeads(d1, d2, t1, t2);
    BelowDigits(y1, y2);
  }

  /** With years 1000-9999 and months 1-12, names in string order are months in
      chronological order, so a reverse sort of the names lists the newest
      month first. */
  lemma FileNameOrder(k1: MonthKey, k2: MonthKey)
    requires CalendarRange(k1) && CalendarRange(k2)
    ensures Below(FileName(k1), FileName(k2)) <==> Earlier(k1, k2)
  {
    var y1, y2 := Digits(k1.year), Digits(k2.year);
    var s1, s2 := Pad2(k1.month) + JsonExt, Pad2(k2.month) + JsonExt;
    NamesBelow(k1, k2);
    if k1.year != k2.year {
      YearOrder(k1.year, k2.year, "_" + s1, "_" + s2);
    } else {
      BelowCommonPrefix(y1, "_" + s1, "_" + s2);
      BelowCommonPrefix("_", s1, s2);
      MonthSuffixOrder(k1.month, k2.month);
    }
  }

  /** Between two month suffixes `{month:02d}.json`, string order is month order. */
  lemma MonthSuffixOrder(m1: int, m2: int)
    requires 1 <= m1 <= 12 && 1 <= m2 <= 12
    ensures Below(Pad2(m1) + JsonExt, Pad2(m2) + JsonExt) <==> m1 < m2
  {
    var p1, p2 := Pad2(m1), Pad2(m2);
    Pad2Shape(m1);
    Pad2Shape(m2);
    BelowPad2(m1, m2);
    BelowPad2(m2, m1);
    if m1 != m2 {
      assert p1 != p2 by {
        BelowIrreflexive(p1);
      }
      BelowDifferentHeads(p1, p2, JsonExt, JsonExt);
    } else {
      BelowIrreflexive(p1 + JsonExt);
    }
  }

  /** Outside months 1-12 string order and month order part ways: the
      partition of "month 100" of 2024, which an admin handler creates when
      the query names that month, sorts below December 2024's, so a reverse
      sort lists the later month after the earlier one. */
  lemma MonthOutOfRangeMisordered()
    ensures Earlier(MonthKey(2024, 12), MonthKey(2024, 100))
    ensures Below(FileName(MonthKey(2024, 100)), FileName(MonthKey(2024, 12)))
  {
    var s1, s2 := Pad2(100) + JsonExt, Pad2(12) + JsonExt;
    assert Digits(10) == "10";
    assert Pad2(100) == "100";
    assert Pad2(12) == "12";
    assert Below(s1[1..], s2[1..]) by {
      assert s1[1..][0] == '0' && s2[1..][0] == '2';
    }
    assert Below(s1, s2);
    NamesBelow(MonthKey(2024, 100), MonthKey(2024, 12));
    BelowCommonPrefix(Digits(2024), "_" + s1, "_" + s2);
    BelowCommonPrefix("_", s1, s2);
  }

  /** No month of the list is earlier than a later one in the list. */
  ghost predicate NewestFirst(ks: seq<MonthKey>) {
    forall i, j :: 0 <= i < j < |ks| ==> !Earlier(ks[i], ks[j])
  }

  /** A partition name is never the client file's name. */
  lemma FileNameNotClients(k: MonthKey)
    ensures FileName(k) != ClientsFile
  {
    assert FileName(k)[0] == 'r' != ClientsFile[0];
  }

  /** `sc` is what the scan makes of `n`, `n` being a name the site itself
      writes into the data folder: the client file, or the partition file of
      some month, whatever its year and month. */
  ghost predicate SiteScan(n: string, sc: Scan) {
    || (n == ClientsFile && sc == Skip)
    || (sc.Month? && FileName(sc.key) == n)
  }

  /** What one site name adds to the months a scan collects. */
  lemma SiteScanHead(n: string, sc: Scan, k: MonthKey)
    requires SiteScan(n, sc)
    ensures sc.Month? || sc.Skip?
    ensures (sc.Month? && k == sc.key) <==> FileName(k) == n
  {
    FileNameNotClients(k);
    if sc.Month? && FileName(k) == n {
      FileNameInjective(k, sc.key);
    }
  }

  /** Scanning site names succeeds. */
  lemma {:induction false} CollectSiteNamesSome(names: seq<string>, scans: seq<Scan>)
    requires |scans| == |names|
    requires forall i :: 0 <= i < |names| ==> SiteScan(names[i], scans[i])
    ensures Collect(scans).Some?
  {
    if |names| > 0 {
      assert SiteScan(names[0], scans[0]);
      SiteScansTail(names, scans);
      CollectSiteNamesSome(names[1..], scans[1..]);
    }
  }

  lemma SiteScansTail(names: seq<string>, scans: seq<Scan>)
    requires |scans| == |names| > 0
    requires forall i :: 0 <= i < |names| ==> SiteScan(names[i], scans[i])
    ensures forall i :: 0 <= i < |names[1..]| ==> SiteScan(names[1..][i], scans[1..][i])
  {
    forall i | 0 <= i < |names[1..]| ensures SiteScan(names[1..][i], scans[1..][i]) {
      assert names[1..][i] == names[i + 1] && scans[1..][i] == scans[i + 1];
    }
  }

  /** A month is collected from site names exactly when one of them is its partition file. */
  lemma {:induction false} CollectSiteNamesAt(names: seq<string>, scans: seq<Scan>, k: MonthKey)
    requires |scans| == |names|
    requires forall i :: 0 <= i < |names| ==> SiteScan(names[i], scans[i])
    ensures Collect(scans).Some?
    ensures k in Collect(scans).value <==> FileName(k) in names
  {
    CollectSiteNamesSome(names, scans);
    if |names| > 0 {
      var rest := names[1..];
      SiteScansTail(names, scans);
      CollectSiteNamesAt(rest, scans[1..], k);
      var ks := Collect(scans[1..]).value;
      assert SiteScan(names[0], scans[0]);
      SiteScanHead(names[0], scans[0], k);
      InHeadOrTail(names, FileName(k));
      if scans[0].Month? {
        assert Collect(scans).value == [scans[0].key] + ks;
      } else {
        assert Collect(scans).value == ks;
      }
    }
  }

  /** Scanning site names succeeds and yields exactly the months they name. */
  lemma CollectSiteNames(names: seq<string>, scans: seq<Scan>)
    requires |scans| == |names|
    requires forall i :: 0 <= i < |names| ==> SiteScan(names[i], scans[i])
    ensures Collect(scans).Some?
    ensures forall k :: k in Collect(scans).value <==> FileName(k) in names
  {
    CollectSiteNamesSome(names, scans);
    forall k ensures k in Collect(scans).value <==> FileName(k) in names {
      CollectSiteNamesAt(names, scans, k);
    }
  }

  /** Repeat-free site names yield repeat-free months. */
  lemma {:induction false} CollectSiteNamesDistinct(names: seq<string>, scans: seq<Scan>)
    requires |scans| == |names| && NoRepeats(names)
    requires forall i :: 0 <= i < |names| ==> SiteScan(names[i], scans[i])
    ensures Collect(scans).Some? && NoRepeats(Collect(scans).value)
  {
    CollectSiteNamesSome(names, scans);
    if |names| > 0 {
      var rest := names[1..];
      NoRepeatsTail(names);
      SiteScansTail(names, scans);
      CollectSiteNamesDistinct(rest, scans[1..]);
      var ks := Collect(scans[1..]).value;
      if scans[0].Month? {
        var k0 := scans[0].key;
        assert SiteScan(names[0], scans[0]);
        SiteScanHead(names[0], scans[0], k0);
        CollectSiteNamesAt(rest, scans[1..], k0);
        ConsNoRepeats(k0, ks);
        assert Collect(scans).value == [k0] + ks;
      }
    }
  }

  /** Every month a scan yields is within years 1000-9999 and months 1-12. */
  ghost predicate CalendarScans(scans: seq<Scan>) {
    forall i :: 0 <= i < |scans| && scans[i].Month? ==> CalendarRange(scans[i].key)
  }

  /** Every collected month is the month of one of the scans. */
  lemma {:induction false} CollectedFromScans(scans: seq<Scan>)
    requires Collect(scans).Some?
    ensures forall k :: k in Collect(scans).value ==> exists i :: 0 <= i < |scans| && scans[i] == Month(k)
  {
    if |scans| > 0 && !scans[0].Malformed? {
      CollectedFromScans(scans[1..]);
      forall k | k in Collect(scans).value
        ensures exists i :: 0 <= i < |scans| && scans[i] == Month(k)
      {
        if scans[0] != Month(k) {
          assert k in Collect(scans[1..]).value;
          var i :| 0 <= i < |scans[1..]| && scans[1..][i] == Month(k);
          assert scans[i + 1] == Month(k);
        }
      }
    }
  }

  /** A collected month is the month of one of the scanned names, so it stays
      within years 1000-9999 and months 1-12 when they all do. */
  lemma {:induction false} CollectCalendar(scans: seq<Scan>)
    requires CalendarScans(scans) && Collect(scans).Some?
    ensures forall k :: k in Collect(scans).value ==> exists i :: 0 <= i < |scans| && scans[i] == Month(k)
    ensures forall k :: k in Collect(scans).value ==> CalendarRange(k)
  {
    CollectedFromScans(scans);
    forall k | k in Collect(scans).value ensures CalendarRange(k) {
      var i :| 0 <= i < |scans| && scans[i] == Month(k);
    }
  }

  /** In a descending listing, the month named first is not earlier than
      any month named after it. */
  lemma HeadNotEarlier(names: seq<string>, k0: MonthKey, k: MonthKey)
    requires |names| > 0 && Descending(names)
    requires CalendarRange(k0) && CalendarRange(k)
    requires names[0] == FileName(k0) && FileName(k) in names[1..]
    ensures !Earlier(k0, k)
  {
    var i :| 1 <= i < |names| && names[i] == FileName(k);
    assert !Below(names[0], names[i]);
    FileNameOrder(k0, k);
  }

  /** Scanning descending site names of months within years 1000-9999 and
      months 1-12 lists those months newest first. */
  lemma {:induction false} CollectSiteNamesOrdered(names: seq<string>, scans: seq<Scan>)
    requires |scans| == |names| && Descending(names)
    requires forall i :: 0 <= i < |names| ==> SiteScan(names[i], scans[i])
    requires CalendarScans(scans)
    ensures Collect(scans).Some? && NewestFirst(Collect(scans).value)
  {
    CollectSiteNames(names, scans);
    if |names| > 0 {
      var rest := names[1..];
      assert Descending(rest) by {
        forall i, j | 0 <= i < j < |rest| ensures !Below(rest[i], rest[j]) {
          assert rest[i] == names[i + 1] && rest[j] == names[j + 1];
        }
      }
      assert CalendarScans(scans[1..]) by {
        forall i | 0 <= i < |scans[1..]| && scans[1..][i].Month?
          ensures CalendarRange(scans[1..][i].key)
        {
          assert scans[1..][i] == scans[i + 1];
        }
      }
      SiteScansTail(names, scans);
      CollectSiteNamesOrdered(rest, scans[1..]);
      CollectSiteNames(rest, scans[1..]);
      CollectCalendar(scans[1..]);
      var ks := Collect(scans[1..]).value;
      if scans[0].Month? {
        var k0 := scans[0].key;
        assert Collect(scans).value == [k0] + ks;
        forall j | 0 <= j < |ks| ensures !Earlier(k0, ks[j]) {
          assert ks[j] in ks;
          HeadNotEarlier(names, k0, ks[j]);
        }
      }
    }
  }

  /** The directory as the site leaves it: one file per saved month, plus
      the client file once a client has been saved. */
  function Listing(keys: seq<MonthKey>, withClients: bool): (names: seq<string>)
    ensures |names| == |keys| + (if withClients then 1 else 0)
  {
    Named(keys, FileName, if withClients then [ClientsFile] else [])
  }

  /** The name `f` gives each key, in order, followed by `tail`. */
  function Named<K>(keys: seq<K>, f: K -> string, tail: seq<string>): (names: seq<string>)
    ensures |names| == |keys| + |tail|
  {
    if |keys| == 0 then tail else [f(keys[0])] + Named(keys[1..], f, tail)
  }

  /** Under an injective `f`, the name of `k` is among the names of `keys`
      exactly when `k` is among `keys`, unless the tail holds it. */
  lemma {:induction false} NamedMember<K(!new)>(keys: seq<K>, f: K -> string, tail: seq<string>, k: K)
    requires forall a, b :: f(a) == f(b) ==> a == b
    requires f(k) !in tail
    ensures f(k) in Named(keys, f, tail) <==> k in keys
  {
    if |keys| > 0 {
      NamedMember(keys[1..], f, tail, k);
      assert keys == [keys[0]] + keys[1..];
    }
  }

  /** Under an injective `f`, repeat-free keys and a repeat-free tail that
      holds no key's name give repeat-free names. */
  lemma {:induction false} NamedNoRepeats<K(!new)>(keys: seq<K>, f: K -> string, tail: seq<string>)
    requires forall a, b :: f(a) == f(b) ==> a == b
    requires NoRepeats(keys) && NoRepeats(tail)
    requires forall k :: f(k) !in tail
    ensures NoRepeats(Named(keys, f, tail))
  {
    if |keys| > 0 {
      NoRepeatsTail(keys);
      NamedNoRepeats(keys[1..], f, tail);
      NamedMember(keys[1..], f, tail, keys[0]);
      ConsNoRepeats(f(keys[0]), Named(keys[1..], f, tail));
    }
  }

  /** Every name is the name of a key or in the tail. */
  lemma {:induction false} NamedOrigin<K(!new)>(keys: seq<K>, f: K -> string, tail: seq<string>, n: string)
    requires n in Named(keys, f, tail)
    ensures n in tail || exists k :: k in keys && n == f(k)
  {
    if |keys| > 0 && n != f(keys[0]) {
      NamedOrigin(keys[1..], f, tail, n);
      if n !in tail {
        var k :| k in keys[1..] && n == f(k);
        assert k in keys;
      }
    } else if |keys| > 0 {
      assert keys[0] in keys;
    }
  }

  /** Each name of a listing is the client file or the name of one of its months. */
  lemma ListingOrigins(keys: seq<MonthKey>, withClients: bool)
    ensures forall n :: n in Listing(keys, withClients) ==>
      n == ClientsFile || exists k :: k in keys && n == FileName(k)
  {
    forall n | n in Listing(keys, withClients)
      ensures n == ClientsFile || exists k :: k in keys && n == FileName(k)
    {
      NamedOrigin(keys, FileName, if withClients then [ClientsFile] else [], n);
    }
  }

  /** The partition names of a listing are exactly those of its months. */
  lemma ListingPartitions(keys: seq<MonthKey>, withClients: bool)
    ensures forall k :: FileName(k) in Listing(keys, withClients) <==> k in keys
  {
    forall a, b | FileName(a) == FileName(b) ensures a == b {
      FileNameInjective(a, b);
    }
    forall k ensures FileName(k) in Listing(keys, withClients) <==> k in keys {
      FileNameNotClients(k);
      NamedMember(keys, FileName, if withClients then [ClientsFile] else [], k);
    }
  }

  /** Saving distinct months leaves distinct file names. */
  lemma ListingNoRepeats(keys: seq<MonthKey>, withClients: bool)
    requires NoRepeats(keys)
    ensures NoRepeats(Listing(keys, withClients))
  {
    forall a, b | FileName(a) == FileName(b) ensures a == b {
      FileNameInjective(a, b);
    }
    forall k ensures FileName(k) !in (if withClients then [ClientsFile] else []) {
      FileNameNotClients(k);
    }
    NamedNoRepeats(keys, FileName, if withClients then [ClientsFile] else []);
  }

  /** What the scan makes of a name from a listing: the client file is
      skipped and a partition name is read as one of the listed months. */
  lemma ListedNameScan(keys: seq<MonthKey>, withClients: bool, n: string)
    requires n in Listing(keys, withClients)
    ensures SiteScan(n, ScanName(n))
    ensures ScanName(n).Month? ==> ScanName(n).key in keys
  {
    ListingOrigins(keys, withClients);
    if n == ClientsFile {
      ClientsFileSkipped();
    } else {
      var k :| k in keys && n == FileName(k);
      FileNameRoundTrip(k);
    }
  }

  /** The scan of a listing as the site leaves it, in any order, name by name. */
  lemma ListedScans(keys: seq<MonthKey>, withClients: bool, names: seq<string>)
    requires multiset(names) == multiset(Listing(keys, withClients))
    ensures forall i :: 0 <= i < |names| ==>
      && SiteScan(names[i], ScanAll(names)[i])
      && (ScanAll(names)[i].Month? ==> ScanAll(names)[i].key in keys)
  {
    var scans := ScanAll(names);
    forall i | 0 <= i < |names|
      ensures SiteScan(names[i], scans[i]) && (scans[i].Month? ==> scans[i].key in keys)
    {
      assert names[i] in multiset(Listing(keys, withClients));
      ListedNameScan(keys, withClients, names[i]);
    }
  }

  /** For any data folder the site leaves, the scan succeeds and the
      available months are exactly the saved ones, whatever their year and month. */
  lemma AvailableMonthsExact(keys: seq<MonthKey>, withClients: bool)
    ensures AvailableMonths(Listing(keys, withClients)).Some?
    ensures forall k :: k in AvailableMonths(Listing(keys, withClients)).value <==> k in keys
    ensures NoRepeats(keys) ==> NoRepeats(AvailableMonths(Listing(keys, withClients)).value)
  {
    var listing := Listing(keys, withClients);
    var sorted := SortDescending(listing);
    ListingPartitions(keys, withClients);
    ListedScans(keys, withClients, sorted);
    CollectSiteNames(sorted, ScanAll(sorted));
    forall n ensures n in sorted <==> n in listing {
      assert n in sorted <==> n in multiset(sorted);
      assert n in listing <==> n in multiset(listing);
    }
    if NoRepeats(keys) {
      ListingNoRepeats(keys, withClients);
      NoRepeatsPermutation(listing, sorted);
      CollectSiteNamesDistinct(sorted, ScanAll(sorted));
    }
  }

  /** For a data folder whose partitions all have years 1000-9999 and
      months 1-12 (and possibly the client file), the available months come
      newest first. A partition outside that range, which an admin handler
      creates when given such a month in the query, can break this order. */
  lemma AvailableMonthsNewestFirst(keys: seq<MonthKey>, withClients: bool)
    requires forall k :: k in keys ==> CalendarRange(k)
    ensures AvailableMonths(Listing(keys, withClients)).Some?
    ensures NewestFirst(AvailableMonths(Listing(keys, withClients)).value)
  {
    var sorted := SortDescending(Listing(keys, withClients));
    var scans := ScanAll(sorted);
    ListedScans(keys, withClients, sorted);
    assert CalendarScans(scans) by {
      forall i | 0 <= i < |scans| && scans[i].Month? ensures CalendarRange(scans[i].key) {
        assert scans[i].key in keys;
      }
    }
    CollectSiteNamesOrdered(sorted, scans);
  }
}
