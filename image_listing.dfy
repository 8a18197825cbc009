/** The image listing of `get_character_images` (app.py:429-451): keep the directory
    entries whose name ends in `.png` (in any letter case) and whose stem is an integer,
    describe each with its number, name and URL, and sort them by number. */
module ImageListing {
  import opened Wrappers

  /** One element of the `images` list of the response. */
  datatype ImageFile = ImageFile(number: int, filename: string, url: string)

  // ---------------------------------------------------------------- names

  /** `str.lower()` for one character, on ASCII letters. */
  function LowerChar(c: char): char
  {
    if 'A' <= c <= 'Z' then (c as int + 32) as char else c
  }

  function LowerAscii(s: string): (r: string)
    ensures |r| == |s|
  {
    seq(|s|, i requires 0 <= i < |s| => LowerChar(s[i]))
  }

  predicate EndsWith(s: string, suffix: string)
  {
    |suffix| <= |s| && s[|s| - |suffix|..] == suffix
  }

  /** `filename.lower().endswith('.png')`. */
  predicate IsPngName(filename: string)
  {
    EndsWith(LowerAscii(filename), ".png")
  }

  /** A name is a `.png` name exactly when it ends in a dot followed by the letters p, n, g,
      each in either case. */
  lemma PngNameCaseInsensitive(filename: string)
    ensures IsPngName(filename) <==>
      var n := |filename|;
      && n >= 4
      && filename[n - 4] == '.'
      && (filename[n - 3] == 'p' || filename[n - 3] == 'P')
      && (filename[n - 2] == 'n' || filename[n - 2] == 'N')
      && (filename[n - 1] == 'g' || filename[n - 1] == 'G')
  {
    var n := |filename|;
    if n >= 4 {
      var low := LowerAscii(filename);
      assert low[n - 4..] == [low[n - 4], low[n - 3], low[n - 2], low[n - 1]];
    }
  }

  /** The position of the last `c` in `s`, if any. */
  function LastIndexOf(s: string, c: char): (r: Option<nat>)
    ensures r.Some? ==> r.value < |s| && s[r.value] == c && forall j :: r.value < j < |s| ==> s[j] != c
    ensures r.None? ==> forall j :: 0 <= j < |s| ==> s[j] != c
  {
    if s == [] then None
    else if s[|s| - 1] == c then Some(|s| - 1)
    else LastIndexOf(s[..|s| - 1], c)
  }

  predicate OnlyDots(s: string)
  {
    forall j :: 0 <= j < |s| ==> s[j] == '.'
  }

  /** `os.path.splitext(filename)[0]` for a directory entry (a name without separators):
      everything before the last dot, unless only dots precede it, in which case the
      name has no extension. */
  function SplitextRoot(filename: string): string
  {
    match LastIndexOf(filename, '.')
    case None => filename
    case Some(d) => if OnlyDots(filename[..d]) then filename else filename[..d]
  }

  // ---------------------------------------------------------------- int()

  predicate IsDigit(c: char)
  {
    '0' <= c <= '9'
  }

  predicate AllDigits(s: string)
  {
    forall i :: 0 <= i < |s| ==> IsDigit(s[i])
  }

  function DigitsValue(s: string): nat
    requires AllDigits(s)
  {
    if s == [] then 0 else DigitsValue(s[..|s| - 1]) * 10 + (s[|s| - 1] as int - '0' as int)
  }

  /** `int(s)` on strings made of an optional sign and ASCII digits; `None` stands for the
      `ValueError` raised on anything else. */
  function ParseInt(s: string): Option<int>
  {
    var signed := |s| > 0 && (s[0] == '+' || s[0] == '-');
    var digits := if signed then s[1..] else s;
    if digits != [] && AllDigits(digits) then
      Some(if signed && s[0] == '-' then -(DigitsValue(digits) as int) else DigitsValue(digits))
    else None
  }

  /** The decimal digits of `n`, without leading zeros. */
  function Decimal(n: nat): (r: string)
    ensures r != [] && AllDigits(r)
  {
    var last := ('0' as int + n % 10) as char;
    if n < 10 then [last] else Decimal(n / 10) + [last]
  }

  lemma {:induction false} DecimalValue(n: nat)
    ensures DigitsValue(Decimal(n)) == n
  {
    var d := Decimal(n);
    if n >= 10 {
      DecimalValue(n / 10);
      assert d[..|d| - 1] == Decimal(n / 10);
    } else {
      assert d[..0] == [];
    }
  }

  /** `int()` inverts the decimal rendering of every integer, with or without a sign. */
  lemma ParseDecimal(n: nat)
    ensures ParseInt(Decimal(n)) == Some(n)
    ensures ParseInt("+" + Decimal(n)) == Some(n)
    ensures ParseInt("-" + Decimal(n)) == Some(-(n as int))
  {
    DecimalValue(n);
    var d := Decimal(n);
    assert ("+" + d)[1..] == d && ("-" + d)[1..] == d;
  }

  // ---------------------------------------------------------------- filtering

  /** `f"/{image_dir}/{filename}"`. */
  function ImageUrl(imageDir: string, filename: string): string
  {
    "/" + imageDir + "/" + filename
  }

  /** The entry the loop appends for `filename`, or `None` when it skips it. */
  function Entry(imageDir: string, filename: string): Option<ImageFile>
  {
    if IsPngName(filename) then
      match ParseInt(SplitextRoot(filename))
      case Some(number) => Some(ImageFile(number, filename, ImageUrl(imageDir, filename)))
      case None => None
    else None
  }

  /** The loop's decision for each directory entry, in directory order. */
  function Entries(imageDir: string, filenames: seq<string>): (r: seq<Option<ImageFile>>)
    ensures |r| == |filenames|
  {
    seq(|filenames|, i requires 0 <= i < |filenames| => Entry(imageDir, filenames[i]))
  }

  /** `image_files` before sorting: the kept entries in directory order. */
  function Collect(imageDir: string, filenames: seq<string>): seq<ImageFile>
  {
    Values(Entries(imageDir, filenames))
  }

  /** A name is kept exactly when it is a `.png` name whose part before the final four
      characters is an integer; it is then listed with that number and its URL. */
  lemma EntryKept(imageDir: string, filename: string)
    ensures Entry(imageDir, filename).Some? <==>
      IsPngName(filename) && ParseInt(filename[..|filename| - 4]).Some?
    ensures Entry(imageDir, filename).Some? ==>
      Entry(imageDir, filename).value ==
        ImageFile(ParseInt(filename[..|filename| - 4]).value, filename, ImageUrl(imageDir, filename))
  {
    if IsPngName(filename) {
      PngNameCaseInsensitive(filename);
      var n := |filename|;
      var stem := filename[..n - 4];
      var d := LastIndexOf(filename, '.');
      assert d == Some(n - 4);
      if OnlyDots(stem) {
        // Then splitext keeps the whole name, which ends in a letter, and the part before
        // the suffix is empty or starts with a dot: neither is an integer.
        assert SplitextRoot(filename) == filename;
        assert !IsDigit(filename[n - 1]);
        assert ParseInt(filename).None?;
        assert ParseInt(stem).None?;
      } else {
        assert SplitextRoot(filename) == stem;
      }
    }
  }

  /** A file named after a natural number with the `.png` suffix is always listed. */
  lemma NumberedPngKept(imageDir: string, n: nat)
    ensures Entry(imageDir, Decimal(n) + ".png") ==
      Some(ImageFile(n, Decimal(n) + ".png", ImageUrl(imageDir, Decimal(n) + ".png")))
  {
    var name := Decimal(n) + ".png";
    assert LowerAscii(name)[|name| - 4..] == ".png";
    assert name[..|name| - 4] == Decimal(n);
    ParseDecimal(n);
    EntryKept(imageDir, name);
  }

  /** Filtering a listing split in two gives the filtered halves, in the same order. */
  lemma CollectAppend(imageDir: string, a: seq<string>, b: seq<string>)
    ensures Collect(imageDir, a + b) == Collect(imageDir, a) + Collect(imageDir, b)
  {
    var ea, eb := Entries(imageDir, a), Entries(imageDir, b);
    var e := Entries(imageDir, a + b);
    forall k | 0 <= k < |e|
      ensures e[k] == (ea + eb)[k]
    {
      if k < |a| {
        assert (a + b)[k] == a[k];
        assert e[k] == ea[k];
      } else {
        assert (a + b)[k] == b[k - |a|];
        assert e[k] == eb[k - |a|];
      }
    }
    assert e == ea + eb;
    ValuesAppend(ea, eb);
  }

  lemma CollectMembers(imageDir: string, filenames: seq<string>)
    ensures forall x :: x in Collect(imageDir, filenames) <==>
      exists i :: 0 <= i < |filenames| && Entry(imageDir, filenames[i]) == Some(x)
  {
    var entries := Entries(imageDir, filenames);
    forall x
      ensures x in Collect(imageDir, filenames) <==>
        exists i :: 0 <= i < |filenames| && Entry(imageDir, filenames[i]) == Some(x)
    {
      ValuesMember(entries, x);
      if x in Collect(imageDir, filenames) {
        var i :| 0 <= i < |entries| && entries[i] == Some(x);
        assert Entry(imageDir, filenames[i]) == Some(x);
      }
      if exists i :: 0 <= i < |filenames| && Entry(imageDir, filenames[i]) == Some(x) {
        var i :| 0 <= i < |filenames| && Entry(imageDir, filenames[i]) == Some(x);
        assert entries[i] == Some(x);
      }
    }
  }

  /** Kept entries appear in directory order: the entry of an earlier name comes before
      the entry of a later one. */
  lemma CollectKeepsOrder(imageDir: string, filenames: seq<string>, i: nat, j: nat)
    requires i < j < |filenames|
    requires Entry(imageDir, filenames[i]).Some? && Entry(imageDir, filenames[j]).Some?
    ensures var c := Collect(imageDir, filenames);
      exists p, q :: 0 <= p < q < |c|
        && c[p] == Entry(imageDir, filenames[i]).value
        && c[q] == Entry(imageDir, filenames[j]).value
  {
    var entries := Entries(imageDir, filenames);
    ValuesKeepOrder(entries, i, j);
    var p, q :| 0 <= p < q < |Values(entries)|
      && Values(entries)[p] == entries[i].value && Values(entries)[q] == entries[j].value;
    assert Collect(imageDir, filenames)[p] == Entry(imageDir, filenames[i]).value;
    assert Collect(imageDir, filenames)[q] == Entry(imageDir, filenames[j]).value;
  }

  // ---------------------------------------------------------------- sorting

  predicate SortedByNumber(s: seq<ImageFile>)
  {
    forall i, j :: 0 <= i < j < |s| ==> s[i].number <= s[j].number
  }

  /** The elements of `s` numbered `n`, in their order in `s`. */
  function WithNumber(s: seq<ImageFile>, n: int): seq<ImageFile>
  {
    if s == [] then []
    else WithNumber(s[..|s| - 1], n) + (if s[|s| - 1].number == n then [s[|s| - 1]] else [])
  }

  /** Insert `x` after every element of `t` whose number is at most its own. */
  function InsertLast(t: seq<ImageFile>, x: ImageFile): seq<ImageFile>
  {
    if t == [] || t[|t| - 1].number <= x.number then t + [x]
    else InsertLast(t[..|t| - 1], x) + [t[|t| - 1]]
  }

  /** `image_files.sort(key=lambda x: x['number'])`, given by insertion (a stable sort;
      SortByNumberIsTheStableSort shows it is the only sorted, stable arrangement). */
  function SortByNumber(s: seq<ImageFile>): seq<ImageFile>
  {
    if s == [] then [] else InsertLast(SortByNumber(s[..|s| - 1]), s[|s| - 1])
  }

  lemma {:induction false} WithNumberMembers(s: seq<ImageFile>, n: int)
    ensures forall x :: x in WithNumber(s, n) <==> x in s && x.number == n
  {
    if s != [] {
      WithNumberMembers(s[..|s| - 1], n);
      assert s == s[..|s| - 1] + [s[|s| - 1]];
    }
  }

  lemma {:induction false} InsertLastMultiset(t: seq<ImageFile>, x: ImageFile)
    ensures multiset(InsertLast(t, x)) == multiset(t) + multiset{x}
  {
    if !(t == [] || t[|t| - 1].number <= x.number) {
      InsertLastMultiset(t[..|t| - 1], x);
      assert t == t[..|t| - 1] + [t[|t| - 1]];
    }
  }

  lemma {:induction false} InsertLastSorted(t: seq<ImageFile>, x: ImageFile)
    requires SortedByNumber(t)
    ensures SortedByNumber(InsertLast(t, x))
  {
    if !(t == [] || t[|t| - 1].number <= x.number) {
      var init, y := t[..|t| - 1], t[|t| - 1];
      InsertLastSorted(init, x);
      InsertLastMultiset(init, x);
      var r := InsertLast(init, x);
      forall i | 0 <= i < |r|
        ensures r[i].number <= y.number
      {
        assert r[i] in multiset(r);
        assert r[i] in multiset(init) || r[i] == x;
      }
    }
  }

  lemma {:induction false} InsertLastStable(t: seq<ImageFile>, x: ImageFile, n: int)
    ensures WithNumber(InsertLast(t, x), n) == WithNumber(t, n) + (if x.number == n then [x] else [])
  {
    if t == [] || t[|t| - 1].number <= x.number {
      assert (t + [x])[..|t|] == t;
    } else {
      var init, y := t[..|t| - 1], t[|t| - 1];
      InsertLastStable(init, x, n);
      var r := InsertLast(init, x);
      assert (r + [y])[..|r|] == r;
    }
  }

  lemma {:induction false} SortByNumberSorted(s: seq<ImageFile>)
    ensures SortedByNumber(SortByNumber(s))
  {
    if s != [] {
      SortByNumberSorted(s[..|s| - 1]);
      InsertLastSorted(SortByNumber(s[..|s| - 1]), s[|s| - 1]);
    }
  }

  lemma {:induction false} SortByNumberPermutes(s: seq<ImageFile>)
    ensures multiset(SortByNumber(s)) == multiset(s)
  {
    if s != [] {
      SortByNumberPermutes(s[..|s| - 1]);
      InsertLastMultiset(SortByNumber(s[..|s| - 1]), s[|s| - 1]);
      assert s == s[..|s| - 1] + [s[|s| - 1]];
    }
  }

  lemma SortByNumberMembers(s: seq<ImageFile>)
    ensures forall x :: x in SortByNumber(s) <==> x in s
  {
    SortByNumberPermutes(s);
    forall x
      ensures x in SortByNumber(s) <==> x in s
    {
      assert x in SortByNumber(s) <==> x in multiset(SortByNumber(s));
      assert x in s <==> x in multiset(s);
    }
  }

  /** Stability: entries with equal numbers keep their input order. */
  lemma {:induction false} SortByNumberStable(s: seq<ImageFile>, n: int)
    ensures WithNumber(SortByNumber(s), n) == WithNumber(s, n)
  {
    if s != [] {
      SortByNumberStable(s[..|s| - 1], n);
      InsertLastStable(SortByNumber(s[..|s| - 1]), s[|s| - 1], n);
    }
  }

  lemma SortedLastIsLargest(t: seq<ImageFile>, x: ImageFile)
    requires SortedByNumber(t) && x in t
    ensures x.number <= t[|t| - 1].number
  {
  }

  /** What the last element of `t`, numbered `m`, contributes to the per-number subsequences. */
  lemma WithNumberOfLast(t: seq<ImageFile>, n: int)
    requires t != []
    ensures var init, last := t[..|t| - 1], t[|t| - 1];
      WithNumber(t, n) == if last.number == n then WithNumber(init, n) + [last] else WithNumber(init, n)
  {
  }

  /** Two arrangements sorted by number that keep the same order among equal numbers are
      the same arrangement. */
  lemma {:induction false} SortedStableUnique(t1: seq<ImageFile>, t2: seq<ImageFile>)
    requires SortedByNumber(t1) && SortedByNumber(t2)
    requires forall n :: WithNumber(t1, n) == WithNumber(t2, n)
    ensures t1 == t2
    decreases |t1|
  {
    if t1 == [] || t2 == [] {
      if t1 != [] || t2 != [] {
        var y := if t1 != [] then t1[0] else t2[0];
        WithNumberMembers(t1, y.number);
        WithNumberMembers(t2, y.number);
        assert false;
      }
    } else {
      var a, b := t1[|t1| - 1], t2[|t2| - 1];
      var i1, i2 := t1[..|t1| - 1], t2[..|t2| - 1];
      assert a.number <= b.number by {
        WithNumberMembers(t1, a.number);
        WithNumberMembers(t2, a.number);
        assert WithNumber(t1, a.number) == WithNumber(t2, a.number);
        SortedLastIsLargest(t2, a);
      }
      assert b.number <= a.number by {
        WithNumberMembers(t1, b.number);
        WithNumberMembers(t2, b.number);
        assert WithNumber(t1, b.number) == WithNumber(t2, b.number);
        SortedLastIsLargest(t1, b);
      }
      var m := a.number;
      assert a == b && WithNumber(i1, m) == WithNumber(i2, m) by {
        WithNumberOfLast(t1, m);
        WithNumberOfLast(t2, m);
        var w1, w2 := WithNumber(i1, m) + [a], WithNumber(i2, m) + [b];
        assert w1 == WithNumber(t1, m) == WithNumber(t2, m) == w2;
        assert w1[|w1| - 1] == a && w2[|w2| - 1] == b;
        assert w1[..|w1| - 1] == WithNumber(i1, m) && w2[..|w2| - 1] == WithNumber(i2, m);
      }
      forall n
        ensures WithNumber(i1, n) == WithNumber(i2, n)
      {
        if n != m {
          WithNumberOfLast(t1, n);
          WithNumberOfLast(t2, n);
          assert WithNumber(t1, n) == WithNumber(t2, n);
        }
      }
      SortedStableUnique(i1, i2);
      assert t1 == i1 + [a] && t2 == i2 + [b];
    }
  }

  /** Any arrangement of `s` that is sorted by number and keeps input order among equal
      numbers, as Python's stable `list.sort` guarantees, is SortByNumber(s). */
  lemma SortByNumberIsTheStableSort(s: seq<ImageFile>, t: seq<ImageFile>)
    requires SortedByNumber(t)
    requires forall n :: WithNumber(t, n) == WithNumber(s, n)
    ensures t == SortByNumber(s)
  {
    SortByNumberSorted(s);
    forall n
      ensures WithNumber(t, n) == WithNumber(SortByNumber(s), n)
    {
      SortByNumberStable(s, n);
    }
    SortedStableUnique(t, SortByNumber(s));
  }

  // ---------------------------------------------------------------- the listing

  /** The listing part of `get_character_images` for the entries `filenames` of the
      directory `imageDir` (app.py:429-451). */
  method ListImages(imageDir: string, filenames: seq<string>)
    returns (images: seq<ImageFile>, defaultImage: string)
    ensures images == SortByNumber(Collect(imageDir, filenames))
    ensures SortedByNumber(images)
    ensures multiset(images) == multiset(Collect(imageDir, filenames))
    ensures forall n :: WithNumber(images, n) == WithNumber(Collect(imageDir, filenames), n)
    ensures forall x :: x in images <==>
      exists i :: 0 <= i < |filenames| && Entry(imageDir, filenames[i]) == Some(x)
    ensures forall x :: x in images ==> x.url == ImageUrl(imageDir, x.filename)
    ensures defaultImage == ImageUrl(imageDir, "1.png")
  {
    var imageFiles: seq<ImageFile> := [];
    for i := 0 to |filenames|
      invariant imageFiles == Collect(imageDir, filenames[..i])
    {
      ghost var done := Entries(imageDir, filenames[..i]);
      assert Entries(imageDir, filenames[..i + 1]) == done + [Entry(imageDir, filenames[i])];
      assert (done + [Entry(imageDir, filenames[i])])[..|done|] == done;
      var filename := filenames[i];
      if IsPngName(filename) {
        var nameWithoutExt := SplitextRoot(filename);
        var number := ParseInt(nameWithoutExt);
        if number.Some? {
          imageFiles := imageFiles + [ImageFile(number.value, filename, ImageUrl(imageDir, filename))];
        } else {
          assert imageFiles + [] == imageFiles;
        }
      } else {
        assert imageFiles + [] == imageFiles;
      }
    }
    assert filenames[..|filenames|] == filenames;
    ghost var kept := imageFiles;
    imageFiles := SortByNumber(imageFiles);
    SortByNumberSorted(kept);
    SortByNumberPermutes(kept);
    forall n
      ensures WithNumber(imageFiles, n) == WithNumber(kept, n)
    {
      SortByNumberStable(kept, n);
    }
    CollectMembers(imageDir, filenames);
    SortByNumberMembers(kept);
    images := imageFiles;
    defaultImage := ImageUrl(imageDir, "1.png");
  }
}
