/**
  The file names of auto_backup/models/db_backup.py, and the clean-up that compares names instead
  of times.
*/
module BackupNames {

  /** A time with a four-digit year; `micros` is not part of the name. */
  datatype Time = Time(year: nat, month: nat, day: nat, hour: nat, minute: nat, second: nat, micros: nat)

  predicate IsTime(t: Time) {
    1000 <= t.year < 10000 && t.month < 100 && t.day < 100 && t.hour < 100 && t.minute < 100 && t.second < 100
  }

  datatype Format = Zip | Dump

  datatype Folder = Local | Sftp

  function Extension(format: Format): string {
    match format case Zip => "dump.zip" case Dump => "dump"
  }

  /** A number in `width` digits. */
  function Digits(n: nat, width: nat): (s: string)
    ensures |s| == width
  {
    if width == 0 then [] else Digits(n / 10, width - 1) + ["0123456789"[n % 10]]
  }

  function Stamp(t: Time): string {
    Digits(t.year, 4) + ("_" + (Digits(t.month, 2) + ("_" + (Digits(t.day, 2) + ("_" + (Digits(t.hour, 2) + ("_" +
    (Digits(t.minute, 2) + ("_" + Digits(t.second, 2))))))))))
  }

  function FileName(t: Time, format: Format): string {
    Stamp(t) + ("." + Extension(format))
  }

  /** Python's order of strings. */
  predicate Less(a: string, b: string)
    decreases |a|
  {
    b != [] && (a == [] || a[0] < b[0] || (a[0] == b[0] && Less(a[1..], b[1..])))
  }

  /** Earlier, to the second. */
  predicate Before(a: Time, b: Time) {
    a.year < b.year || (a.year == b.year &&
    (a.month < b.month || (a.month == b.month &&
    (a.day < b.day || (a.day == b.day &&
    (a.hour < b.hour || (a.hour == b.hour &&
    (a.minute < b.minute || (a.minute == b.minute && a.second < b.second)))))))))
  }

  // ----- names order like times -----

  lemma {:induction false} LessConcat(a: string, b: string, x: string, y: string)
    requires |a| == |b|
    ensures Less(a + x, b + y) <==> Less(a, b) || (a == b && Less(x, y))
    decreases |a|
  {
    if a == [] {
      assert a + x == x && b + y == y;
    } else {
      assert (a + x)[1..] == a[1..] + x && (b + y)[1..] == b[1..] + y;
      assert a == b <==> a[0] == b[0] && a[1..] == b[1..] by {
        assert [a[0]] + a[1..] == a && [b[0]] + b[1..] == b;
      }
      LessConcat(a[1..], b[1..], x, y);
    }
  }

  function Power(width: nat): nat {
    if width == 0 then 1 else 10 * Power(width - 1)
  }

  lemma DigitOrder(m: nat, n: nat)
    requires m < 10 && n < 10
    ensures Less(["0123456789"[m]], ["0123456789"[n]]) <==> m < n
    ensures ["0123456789"[m]] == ["0123456789"[n]] <==> m == n
  {
    assert forall i, j :: 0 <= i < j < 10 ==> "0123456789"[i] < "0123456789"[j];
  }

  lemma {:induction false} DigitsOrder(m: nat, n: nat, width: nat)
    requires m < Power(width) && n < Power(width)
    ensures Less(Digits(m, width), Digits(n, width)) <==> m < n
    ensures Digits(m, width) == Digits(n, width) <==> m == n
    decreases width
  {
    if width == 0 {
    } else {
      DigitsOrder(m / 10, n / 10, width - 1);
      DigitOrder(m % 10, n % 10);
      var a, b := Digits(m / 10, width - 1), Digits(n / 10, width - 1);
      LessConcat(a, b, ["0123456789"[m % 10]], ["0123456789"[n % 10]]);
      assert Digits(m, width)[..width - 1] == a && Digits(n, width)[..width - 1] == b;
      assert Digits(m, width)[width - 1] == "0123456789"[m % 10] && Digits(n, width)[width - 1] == "0123456789"[n % 10];
    }
  }

  /** A field of the stamp and what follows it. */
  lemma FieldOrder(m: nat, n: nat, width: nat, x: string, y: string)
    requires m < Power(width) && n < Power(width)
    ensures Less(Digits(m, width) + ("_" + x), Digits(n, width) + ("_" + y)) <==> m < n || (m == n && Less(x, y))
  {
    DigitsOrder(m, n, width);
    LessConcat(Digits(m, width), Digits(n, width), "_" + x, "_" + y);
    LessConcat("_", "_", x, y);
  }

  lemma Irreflexive(s: string)
    ensures !Less(s, s)
    decreases |s|
  {
    if s != [] {
      Irreflexive(s[1..]);
    }
  }

  function FromMinute(t: Time): string {
    Digits(t.minute, 2) + ("_" + Digits(t.second, 2))
  }

  function FromDay(t: Time): string {
    Digits(t.day, 2) + ("_" + (Digits(t.hour, 2) + ("_" + FromMinute(t))))
  }

  lemma Powers()
    ensures Power(2) == 100 && Power(4) == 10000
  {
    assert Power(1) == 10 && Power(3) == 1000;
  }

  lemma StampOrder(a: Time, b: Time)
    requires IsTime(a) && IsTime(b)
    ensures Less(Stamp(a), Stamp(b)) <==> Before(a, b)
  {
    Powers();
    DigitsOrder(a.second, b.second, 2);
    FieldOrder(a.minute, b.minute, 2, Digits(a.second, 2), Digits(b.second, 2));
    FieldOrder(a.hour, b.hour, 2, FromMinute(a), FromMinute(b));
    FieldOrder(a.day, b.day, 2, Digits(a.hour, 2) + ("_" + FromMinute(a)), Digits(b.hour, 2) + ("_" + FromMinute(b)));
    FieldOrder(a.month, b.month, 2, FromDay(a), FromDay(b));
    FieldOrder(a.year, b.year, 4, Digits(a.month, 2) + ("_" + FromDay(a)), Digits(b.month, 2) + ("_" + FromDay(b)));
  }

  /** With the same format, a file name is less than another exactly when its time is earlier, to the second. */
  lemma NamesOrderLikeTimes(a: Time, b: Time, format: Format)
    requires IsTime(a) && IsTime(b)
    ensures Less(FileName(a, format), FileName(b, format)) <==> Before(a, b)
  {
    StampOrder(a, b);
    var ext := "." + Extension(format);
    LessConcat(Stamp(a), Stamp(b), ext, ext);
    Irreflexive(ext);
  }

  // ----- the clean-up -----

  predicate EndsWith(s: string, t: string) {
    |t| <= |s| && s[|s| - |t|..] == t
  }

  /** A pattern that starts with a star does not match the names that start with a dot. */
  predicate Listed(folder: Folder, format: Format, name: string) {
    EndsWith(name, "." + Extension(format)) && (folder == Local ==> name[0] != '.')
  }

  /** Names with the ending of the format, without the hidden ones of a local folder. */
  lemma ListedExactly(folder: Folder, format: Format, name: string)
    ensures Listed(folder, format, name) <==>
            && (format == Zip ==> |name| >= 9 && name[|name| - 9..] == ".dump.zip")
            && (format == Dump ==> |name| >= 5 && name[|name| - 5..] == ".dump")
            && (folder == Local ==> name[0] != '.')
  {
    assert "." + Extension(Zip) == ".dump.zip" && "." + Extension(Dump) == ".dump";
  }

  /** A file is deleted exactly when it is listed and its name is less than that of a backup at the cutoff. */
  lemma RemainingExactly(files: set<string>, folder: Folder, format: Format, cutoff: Time, f: string)
    ensures f in Remaining(files, folder, format, cutoff) <==>
            f in files && (Listed(folder, format, f) ==> !Less(f, FileName(cutoff, format)))
  {
  }

  function Remaining(files: set<string>, folder: Folder, format: Format, cutoff: Time): set<string> {
    set f | f in files && !(Listed(folder, format, f) && Less(f, FileName(cutoff, format)))
  }

  class BackupFolder {
    const folder: Folder
    var files: set<string>

    constructor (folder: Folder, files: set<string>)
      ensures this.folder == folder && this.files == files
    {
      this.folder, this.files := folder, files;
    }

    /**
      No clean-up is made when no number of days is set.  A file that cannot be deleted ends it; the
      error is logged.
    */
    method Cleanup(daysToKeep: nat, format: Format, cutoff: Time, deletable: string -> bool) returns (ended: bool)
      modifies this
      ensures daysToKeep == 0 ==> ended && files == old(files)
      ensures daysToKeep > 0 && ended ==> files == Remaining(old(files), folder, format, cutoff)
      ensures Remaining(old(files), folder, format, cutoff) <= files <= old(files)
      ensures forall f :: f in old(files) - files ==> deletable(f)
      ensures daysToKeep > 0 ==>
                var going := old(files) - Remaining(old(files), folder, format, cutoff);
                ended <==> forall f :: f in going ==> deletable(f)
    {
      ended := true;
      if daysToKeep == 0 {
        return;
      }
      var oldest := FileName(cutoff, format);
      var todo := files;
      while todo != {}
        invariant todo <= old(files)
        invariant files == set f | f in old(files) && (f in todo || !(Listed(folder, format, f) && Less(f, oldest)))
        invariant forall f :: f in old(files) - files ==> deletable(f)
      {
        var name :| name in todo;
        if Listed(folder, format, name) && Less(name, oldest) {
          if !deletable(name) {
            assert name in old(files) - Remaining(old(files), folder, format, cutoff);
            return false;
          }
          files := files - {name};
        }
        todo := todo - {name};
      }
    }
  }

  lemma NameIsListed(t: Time, folder: Folder, format: Format, other: Format)
    requires IsTime(t)
    ensures Listed(folder, other, FileName(t, format)) <==> format == other
  {
    var name, ext := FileName(t, format), "." + Extension(format);
    assert name[|name| - |ext|..] == ext;
    assert name[0] == Digits(t.year, 4)[0];
    YearStartsWithDigit(t.year);
    if format != other {
      assert name[|name| - 2] == ext[|ext| - 2];
      var e := "." + Extension(other);
      if |e| <= |name| {
        assert name[|name| - |e|..][|e| - 2] == name[|name| - 2];
        assert e[|e| - 2] != ext[|ext| - 2];
      }
    }
  }

  lemma YearStartsWithDigit(year: nat)
    ensures Digits(year, 4)[0] != '.'
  {
    var d := year / 10 / 10 / 10;
    assert Digits(d, 1) == ["0123456789"[d % 10]];
    assert Digits(year / 10 / 10, 2)[0] == "0123456789"[d % 10];
    assert Digits(year / 10, 3)[0] == "0123456789"[d % 10];
    assert forall i :: 0 <= i < 10 ==> "0123456789"[i] != '.';
  }

  /**
    A backup disappears exactly when it is of the format of the clean-up and was made before the
    cutoff, to the second.
  */
  lemma CleanupDeletesExactly(files: set<string>, folder: Folder, format: Format, cutoff: Time, t: Time, made: Format)
    requires IsTime(t) && IsTime(cutoff) && FileName(t, made) in files
    ensures FileName(t, made) in Remaining(files, folder, format, cutoff) <==> made != format || !Before(t, cutoff)
  {
    NameIsListed(t, folder, made, format);
    NamesOrderLikeTimes(t, cutoff, format);
  }
}
