/**
 * get_sorted_files: list the entries of a snapshot directory whose suffix is
 * exactly the requested file format, and order them by the integer at the end
 * of their stem, so that "name_2.vtk" comes before "name_10.vtk". The
 * directory is given by its path (used only in the error) and its listing,
 * `None` when the directory does not exist.
 */
module SortedFiles {
  import opened Wrappers
  import opened PathNames
  import opened PyText

  /** A kept directory entry together with its sort key. */
  datatype Entry = Entry(name: string, key: int)

  /**
   * get_alphanum_key: split the stem on `token`, take the last part and
   * parse it with int(). An empty token makes str.split raise ValueError.
   */
  function KeyOf(name: string, token: string): (r: Result<int, Failure>)
    ensures r.Err? ==> r.error == EmptySeparator || r.error.InvalidLiteral?
    ensures token == [] ==> r == Err(EmptySeparator)
  {
    if token == [] then Err(EmptySeparator)
    else
      var parts := Split(Stem(name), token);
      ParseInt(parts[|parts| - 1])
  }

  /**
   * A name written as <prefix><c><seg><ext>, for any one-character token c
   * and any dot-free last segment that does not contain c, has suffix <ext>
   * and int(<seg>) as its key: the value of a signed literal such as "-3" or
   * "+2", and ValueError for a segment such as "abc" or "".
   */
  lemma KeyOfLiteral(prefix: string, c: char, seg: string, ext: string)
    requires c !in seg && forall j :: 0 <= j < |seg| ==> seg[j] != '.'
    requires |ext| >= 2 && ext[0] == '.'
    requires forall j :: 1 <= j < |ext| ==> ext[j] != '.'
    ensures Suffix(prefix + [c] + seg + ext) == ext
    ensures KeyOf(prefix + [c] + seg + ext, [c]) == ParseInt(seg)
  {
    var stem := prefix + [c] + seg;
    SuffixOfExtension(stem, ext);
    LastPartAfterSeparator(prefix, c, seg);
    var parts := Split(stem, [c]);
    assert parts[|parts| - 1] == seg;
  }

  /** A last segment int() rejects, such as the "abc" of "f_abc.vtk", makes the key fail with ValueError. */
  lemma KeyOfNonInteger(prefix: string, seg: string, ext: string)
    requires !IsIntLiteral(seg) && '_' !in seg && forall j :: 0 <= j < |seg| ==> seg[j] != '.'
    requires |ext| >= 2 && ext[0] == '.'
    requires forall j :: 1 <= j < |ext| ==> ext[j] != '.'
    ensures Suffix(prefix + "_" + seg + ext) == ext
    ensures KeyOf(prefix + "_" + seg + ext, "_") == Err(InvalidLiteral(seg))
  {
    KeyOfLiteral(prefix, '_', seg, ext);
  }

  /** An integer literal holds no dot, so it never reaches into a suffix. */
  lemma LiteralHasNoDot(lit: string)
    requires IsIntLiteral(lit)
    ensures forall j :: 0 <= j < |lit| ==> lit[j] != '.'
  {
    forall j | 0 <= j < |lit| ensures lit[j] != '.' {
      if j > 0 || AllDigits(lit) {
        assert IsDigit(lit[j]);
      }
    }
  }

  /**
   * A name written as <prefix>_<digits><ext>, where <ext> is a dot followed by
   * a non-empty, dot-free extension, has suffix <ext> and the value of
   * <digits> as its key, whatever the prefix holds (underscores and dots
   * included).
   */
  lemma KeyOfDigits(prefix: string, digits: string, ext: string)
    requires digits != [] && AllDigits(digits)
    requires |ext| >= 2 && ext[0] == '.'
    requires forall j :: 1 <= j < |ext| ==> ext[j] != '.'
    ensures Suffix(prefix + "_" + digits + ext) == ext
    ensures KeyOf(prefix + "_" + digits + ext, "_") == Ok(DigitsValue(digits))
  {
    assert '_' !in digits by {
      forall i | 0 <= i < |digits| ensures digits[i] != '_' {
        assert IsDigit(digits[i]);
      }
    }
    LiteralHasNoDot(digits);
    KeyOfLiteral(prefix, '_', digits, ext);
  }

  /** The files the sorter is written for, <prefix>_<n><ext>, are kept under <ext> and keyed by n. */
  lemma KeyOfNumbered(prefix: string, n: nat, ext: string)
    requires |ext| >= 2 && ext[0] == '.'
    requires forall j :: 1 <= j < |ext| ==> ext[j] != '.'
    ensures Suffix(prefix + "_" + Decimal(n) + ext) == ext
    ensures KeyOf(prefix + "_" + Decimal(n) + ext, "_") == Ok(n)
  {
    KeyOfDigits(prefix, Decimal(n), ext);
  }

  /** The list comprehension on the suffix: entries kept in listing order. */
  function Kept(entries: seq<string>, format: string): (kept: seq<string>)
    ensures |kept| <= |entries|
    ensures forall n :: n in kept ==> n in entries && Suffix(n) == format
  {
    if entries == [] then []
    else
      var tail := Kept(entries[1..], format);
      if Suffix(entries[0]) == format then [entries[0]] + tail else tail
  }

  /** Each entry whose suffix is the format is kept as often as it is listed, any other not at all. */
  lemma {:induction false} KeptCount(entries: seq<string>, format: string)
    ensures forall n :: multiset(Kept(entries, format))[n] == if Suffix(n) == format then multiset(entries)[n] else 0
  {
    if entries != [] {
      KeptCount(entries[1..], format);
      assert entries == [entries[0]] + entries[1..];
    }
  }

  /** A single entry is kept exactly when its suffix is the format. */
  lemma KeptSingle(n: string, format: string)
    ensures Kept([n], format) == if Suffix(n) == format then [n] else []
  {
    assert [n][1..] == [];
  }

  /** The filter keeps listing order: filtering a listing is filtering its parts. */
  lemma {:induction false} KeptConcat(a: seq<string>, b: seq<string>, format: string)
    ensures Kept(a + b, format) == Kept(a, format) + Kept(b, format)
  {
    if a == [] {
      assert a + b == b;
    } else {
      var x, rest := a[0], a[1..];
      assert a == [x] + rest;
      assert a + b == [x] + (rest + b);
      var head := if Suffix(x) == format then [x] else [];
      KeptCons(x, rest + b, format);
      KeptCons(x, rest, format);
      KeptConcat(rest, b, format);
      var kr, kb := Kept(rest, format), Kept(b, format);
      ConcatAssoc(head, kr, kb);
    }
  }

  lemma ConcatAssoc<T>(x: seq<T>, y: seq<T>, z: seq<T>)
    ensures x + (y + z) == (x + y) + z
  {
  }

  lemma KeptCons(x: string, rest: seq<string>, format: string)
    ensures Kept([x] + rest, format) == (if Suffix(x) == format then [x] else []) + Kept(rest, format)
  {
    assert ([x] + rest)[0] == x && ([x] + rest)[1..] == rest;
  }

  /** Each entry carries the key get_alphanum_key gives its name. */
  ghost predicate WellKeyed(es: seq<Entry>, token: string)
  {
    forall i :: 0 <= i < |es| ==> KeyOf(es[i].name, token) == Ok(es[i].key)
  }

  function Names(es: seq<Entry>): (names: seq<string>)
    ensures |names| == |es| && forall i :: 0 <= i < |es| ==> names[i] == es[i].name
  {
    if es == [] then [] else [es[0].name] + Names(es[1..])
  }

  /**
   * The keys sorted() computes before it compares anything: every name's key,
   * in order, or the failure of the first name whose key cannot be computed.
   */
  function Decorate(names: seq<string>, token: string): (r: Result<seq<Entry>, Failure>)
    ensures r.Ok? ==> |r.value| == |names|
  {
    if names == [] then Ok([])
    else
      match KeyOf(names[0], token)
      case Err(e) => Err(e)
      case Ok(k) =>
        match Decorate(names[1..], token)
        case Err(e) => Err(e)
        case Ok(tail) => Ok([Entry(names[0], k)] + tail)
  }

  /** Decorate succeeds exactly when every key can be computed. */
  lemma {:induction false} DecorateOk(names: seq<string>, token: string)
    ensures Decorate(names, token).Ok? <==> forall i :: 0 <= i < |names| ==> KeyOf(names[i], token).Ok?
  {
    if names != [] {
      if KeyOf(names[0], token).Ok? {
        DecorateOk(names[1..], token);
        assert Decorate(names, token).Ok? == Decorate(names[1..], token).Ok?;
        assert forall i :: 1 <= i < |names| ==> names[i] == names[1..][i - 1];
      }
    }
  }

  /** A successful Decorate pairs each name, in order, with its key. */
  lemma {:induction false} DecorateKeys(names: seq<string>, token: string)
    requires Decorate(names, token).Ok?
    ensures Names(Decorate(names, token).value) == names
    ensures WellKeyed(Decorate(names, token).value, token)
  {
    if names != [] {
      DecorateKeys(names[1..], token);
      var es := Decorate(names, token).value;
      var tail := Decorate(names[1..], token).value;
      assert es == [Entry(names[0], es[0].key)] + tail;
      assert es[1..] == tail;
      assert Names(es) == [names[0]] + Names(tail);
      assert names == [names[0]] + names[1..];
    }
  }

  /** A failing Decorate reports the failure of the first name whose key cannot be computed. */
  lemma {:induction false} DecorateFirstFailure(names: seq<string>, token: string)
    requires Decorate(names, token).Err?
    ensures exists i :: FirstFailureAt(names, token, i, Decorate(names, token).error)
  {
    var err := Decorate(names, token).error;
    DecorateStep(names, token);
    if KeyOf(names[0], token).Ok? {
      var rest := names[1..];
      DecorateFirstFailure(rest, token);
      var i :| FirstFailureAt(rest, token, i, err);
      FirstFailureShift(names, token, i, err);
    } else {
      assert FirstFailureAt(names, token, 0, err);
    }
  }

  /** Position `i` holds the first name whose key fails, with error `e`. */
  ghost predicate FirstFailureAt(names: seq<string>, token: string, i: int, e: Failure)
  {
    0 <= i < |names| && KeyOf(names[i], token) == Err(e) &&
    forall j :: 0 <= j < i ==> KeyOf(names[j], token).Ok?
  }

  lemma FirstFailureShift(names: seq<string>, token: string, i: int, e: Failure)
    requires names != [] && KeyOf(names[0], token).Ok? && FirstFailureAt(names[1..], token, i, e)
    ensures FirstFailureAt(names, token, i + 1, e)
  {
    assert names[i + 1] == names[1..][i];
    PrefixShift(names, n => KeyOf(n, token).Ok?, i);
  }

  /** A property of the head and of the first i of the rest holds of the first i + 1. */
  lemma PrefixShift<T>(xs: seq<T>, p: T -> bool, i: int)
    requires xs != [] && p(xs[0]) && 0 <= i < |xs|
    requires forall j :: 0 <= j < i ==> p(xs[1..][j])
    ensures forall j :: 0 <= j < i + 1 ==> p(xs[j])
  {
    forall j | 0 <= j < i + 1 ensures p(xs[j]) {
      if j > 0 {
        assert xs[j] == xs[1..][j - 1];
      }
    }
  }

  /** One step of Decorate: the head's failure, or the failure of the rest. */
  lemma DecorateStep(names: seq<string>, token: string)
    requires names != []
    ensures KeyOf(names[0], token).Err? ==> Decorate(names, token) == Err(KeyOf(names[0], token).error)
    ensures KeyOf(names[0], token).Ok? ==>
      (Decorate(names, token).Err? <==> Decorate(names[1..], token).Err?) &&
      (Decorate(names, token).Err? ==> Decorate(names, token).error == Decorate(names[1..], token).error)
  {
  }

  predicate SortedByKey(es: seq<Entry>)
  {
    forall i, j :: 0 <= i < j < |es| ==> es[i].key <= es[j].key
  }

  /** The entries with key `k`, in their order of appearance. */
  function WithKey(es: seq<Entry>, k: int): seq<Entry>
  {
    if es == [] then []
    else (if es[0].key == k then [es[0]] else []) + WithKey(es[1..], k)
  }

  /**
   * Insert `e` in front of the first entry whose key is not below its own;
   * every entry passed over has a strictly smaller key.
   */
  function Insert(e: Entry, es: seq<Entry>): (r: seq<Entry>)
    ensures multiset(r) == multiset(es) + multiset{e}
  {
    if es == [] || e.key <= es[0].key then [e] + es
    else
      assert es == [es[0]] + es[1..];
      [es[0]] + Insert(e, es[1..])
  }

  lemma {:induction false} InsertSorted(e: Entry, es: seq<Entry>)
    requires SortedByKey(es)
    ensures SortedByKey(Insert(e, es))
  {
    if es != [] && e.key > es[0].key {
      var tail := Insert(e, es[1..]);
      InsertSorted(e, es[1..]);
      forall j | 0 <= j < |tail| ensures es[0].key <= tail[j].key {
        var x := tail[j];
        assert x in multiset(tail);
        if x != e {
          assert x in multiset(es[1..]);
          var m :| 0 <= m < |es[1..]| && es[1..][m] == x;
          assert es[m + 1] == x;
        }
      }
      assert Insert(e, es) == [es[0]] + tail;
      SortedCons(es[0], tail);
    }
  }

  lemma SortedCons(h: Entry, es: seq<Entry>)
    requires SortedByKey(es) && forall j :: 0 <= j < |es| ==> h.key <= es[j].key
    ensures SortedByKey([h] + es)
  {
    assert forall j :: 1 <= j <= |es| ==> ([h] + es)[j] == es[j - 1];
  }

  lemma {:induction false} InsertWithKey(e: Entry, es: seq<Entry>, k: int)
    ensures WithKey(Insert(e, es), k) == if e.key == k then [e] + WithKey(es, k) else WithKey(es, k)
  {
    if es == [] || e.key <= es[0].key {
      assert Insert(e, es) == [e] + es;
      WithKeyCons(e, es, k);
    } else {
      var x, rest := es[0], es[1..];
      assert es == [x] + rest;
      InsertWithKey(e, rest, k);
      assert Insert(e, es) == [x] + Insert(e, rest);
      WithKeyCons(x, Insert(e, rest), k);
      WithKeyCons(x, rest, k);
      if e.key == k {
        WithKeyCons(e, rest, k);
      }
    }
  }

  lemma WithKeyCons(x: Entry, rest: seq<Entry>, k: int)
    ensures WithKey([x] + rest, k) == (if x.key == k then [x] else []) + WithKey(rest, k)
  {
    assert ([x] + rest)[0] == x && ([x] + rest)[1..] == rest;
  }

  /** The stable sort `sorted(..., key=...)` performs, as an insertion sort. */
  function SortByKey(es: seq<Entry>): (r: seq<Entry>)
    ensures multiset(r) == multiset(es)
  {
    if es == [] then []
    else
      assert es == [es[0]] + es[1..];
      Insert(es[0], SortByKey(es[1..]))
  }

  lemma {:induction false} SortByKeySorted(es: seq<Entry>)
    ensures SortedByKey(SortByKey(es))
  {
    if es != [] {
      SortByKeySorted(es[1..]);
      InsertSorted(es[0], SortByKey(es[1..]));
    }
  }

  /** Entries with equal keys keep their relative order: the sort is stable. */
  lemma {:induction false} SortByKeyStable(es: seq<Entry>, k: int)
    ensures WithKey(SortByKey(es), k) == WithKey(es, k)
  {
    if es != [] {
      SortByKeyStable(es[1..], k);
      InsertWithKey(es[0], SortByKey(es[1..]), k);
    }
  }

  /** Every name has a key. */
  predicate Keyed(names: seq<string>, token: string)
  {
    forall i :: 0 <= i < |names| ==> KeyOf(names[i], token).Ok?
  }

  /** The names are in non-decreasing order of key. */
  predicate Ascending(names: seq<string>, token: string)
    requires Keyed(names, token)
  {
    forall i, j :: 0 <= i < j < |names| ==> KeyOf(names[i], token).value <= KeyOf(names[j], token).value
  }

  /** The names whose key is `k`, in their order of appearance. */
  function NamesWithKey(names: seq<string>, token: string, k: int): seq<string>
  {
    if names == [] then []
    else (if KeyOf(names[0], token) == Ok(k) then [names[0]] else []) + NamesWithKey(names[1..], token, k)
  }

  lemma {:induction false} NamesWithKeyMember(names: seq<string>, token: string, k: int, x: string)
    requires x in NamesWithKey(names, token, k)
    ensures x in names && KeyOf(x, token) == Ok(k)
  {
    if KeyOf(names[0], token) != Ok(k) || x != names[0] {
      NamesWithKeyMember(names[1..], token, k, x);
    }
  }

  /** Filtering entries by key and then taking names is filtering names by key. */
  lemma {:induction false} NamesOfWithKey(es: seq<Entry>, token: string, k: int)
    requires WellKeyed(es, token)
    ensures Names(WithKey(es, k)) == NamesWithKey(Names(es), token, k)
  {
    if es != [] {
      assert WellKeyed(es[1..], token) by {
        forall i | 0 <= i < |es[1..]| ensures KeyOf(es[1..][i].name, token) == Ok(es[1..][i].key) {
          assert es[1..][i] == es[i + 1];
        }
      }
      NamesOfWithKey(es[1..], token, k);
      assert Names(es)[1..] == Names(es[1..]);
      NamesConcat(if es[0].key == k then [es[0]] else [], WithKey(es[1..], k));
    }
  }

  lemma {:induction false} NamesConcat(a: seq<Entry>, b: seq<Entry>)
    ensures Names(a + b) == Names(a) + Names(b)
  {
  }

  lemma {:induction false} SortByKeyWellKeyed(es: seq<Entry>, token: string)
    requires WellKeyed(es, token)
    ensures WellKeyed(SortByKey(es), token)
  {
    var r := SortByKey(es);
    forall i | 0 <= i < |r| ensures KeyOf(r[i].name, token) == Ok(r[i].key) {
      assert r[i] in multiset(es);
      var j :| 0 <= j < |es| && es[j] == r[i];
    }
  }

  /** In an ascending list, the first name has the least key of the list. */
  lemma {:induction false} FirstKeyLeast(a: seq<string>, token: string, k: int)
    requires a != [] && Keyed(a, token) && Ascending(a, token)
    requires NamesWithKey(a, token, k) != []
    ensures KeyOf(a[0], token).value <= k
  {
    var x := NamesWithKey(a, token, k)[0];
    NamesWithKeyMember(a, token, k, x);
    var i :| 0 <= i < |a| && a[i] == x;
    assert KeyOf(a[0], token).value <= KeyOf(a[i], token).value;
  }

  /** The first name of a non-empty list is the first name carrying its own key. */
  lemma {:induction false} FirstWithOwnKey(a: seq<string>, token: string)
    requires a != [] && KeyOf(a[0], token).Ok?
    ensures NamesWithKey(a, token, KeyOf(a[0], token).value) != []
    ensures NamesWithKey(a, token, KeyOf(a[0], token).value)[0] == a[0]
  {
  }

  lemma {:induction false} KeyedTail(a: seq<string>, token: string)
    requires a != [] && Keyed(a, token) && Ascending(a, token)
    ensures Keyed(a[1..], token) && Ascending(a[1..], token)
  {
    forall i | 0 <= i < |a[1..]| ensures KeyOf(a[1..][i], token) == KeyOf(a[i + 1], token) {
    }
  }

  /**
   * The order is determined: two keyed lists, both ascending and both listing
   * the names of each key in the same order, are the same list. So any stable
   * sort by this key (Python's Timsort included) produces this order.
   */
  lemma {:induction false} AscendingStableUnique(a: seq<string>, b: seq<string>, token: string)
    requires Keyed(a, token) && Keyed(b, token)
    requires Ascending(a, token) && Ascending(b, token)
    requires forall k :: NamesWithKey(a, token, k) == NamesWithKey(b, token, k)
    ensures a == b
    decreases |a|
  {
    if a != [] {
      FirstWithOwnKey(a, token);
      var ka := KeyOf(a[0], token).value;
      assert NamesWithKey(b, token, ka) != [];
      if b == [] {
        assert false;
      } else {
        FirstWithOwnKey(b, token);
        var kb := KeyOf(b[0], token).value;
        FirstKeyLeast(a, token, kb);
        FirstKeyLeast(b, token, ka);
        assert ka == kb;
        calc {
          a[0];
          NamesWithKey(a, token, ka)[0];
          NamesWithKey(b, token, ka)[0];
          b[0];
        }
        forall k ensures NamesWithKey(a[1..], token, k) == NamesWithKey(b[1..], token, k) {
          SameHeadTails(a, b, token, k);
        }
        KeyedTail(a, token);
        KeyedTail(b, token);
        AscendingStableUnique(a[1..], b[1..], token);
        assert a == [a[0]] + a[1..] && b == [b[0]] + b[1..];
      }
    } else if b != [] {
      FirstWithOwnKey(b, token);
      assert false;
    }
  }

  /** Two lists with the same head that agree on the names with key k agree on them after the head. */
  lemma SameHeadTails(a: seq<string>, b: seq<string>, token: string, k: int)
    requires a != [] && b != [] && a[0] == b[0]
    requires NamesWithKey(a, token, k) == NamesWithKey(b, token, k)
    ensures NamesWithKey(a[1..], token, k) == NamesWithKey(b[1..], token, k)
  {
    var head := if KeyOf(a[0], token) == Ok(k) then [a[0]] else [];
    assert NamesWithKey(a, token, k) == head + NamesWithKey(a[1..], token, k);
    assert NamesWithKey(b, token, k) == head + NamesWithKey(b[1..], token, k);
    assert NamesWithKey(a, token, k)[|head|..] == NamesWithKey(a[1..], token, k);
    assert NamesWithKey(b, token, k)[|head|..] == NamesWithKey(b[1..], token, k);
  }

  /** get_sorted_files on a listing (None when the directory does not exist). */
  function GetSortedFiles(dataDir: string, listing: Option<seq<string>>, format: string, token: string)
    : (r: Result<seq<string>, Failure>)
    ensures listing.None? ==> r == Err(DirectoryNotFound(dataDir))
  {
    if listing.None? then Err(DirectoryNotFound(dataDir))
    else
      match Decorate(Kept(listing.value, format), token)
      case Err(e) => Err(e)
      case Ok(es) => Ok(Names(SortByKey(es)))
  }

  /**
   * get_sorted_files fails exactly when the directory is missing or some kept
   * entry has no integer key; it then reports the first such entry, in
   * listing order, and returns no list at all.
   */
  lemma SortedFilesFailure(dataDir: string, listing: Option<seq<string>>, format: string, token: string)
    requires listing.Some?
    ensures GetSortedFiles(dataDir, listing, format, token).Err? <==>
      exists n :: n in Kept(listing.value, format) && KeyOf(n, token).Err?
    ensures GetSortedFiles(dataDir, listing, format, token).Err? ==>
      var kept := Kept(listing.value, format);
      exists i :: 0 <= i < |kept| && KeyOf(kept[i], token) == Err(GetSortedFiles(dataDir, listing, format, token).error) &&
                  forall j :: 0 <= j < i ==> KeyOf(kept[j], token).Ok?
  {
    var kept := Kept(listing.value, format);
    DecorateOk(kept, token);
    if Decorate(kept, token).Err? {
      DecorateFirstFailure(kept, token);
      var i :| FirstFailureAt(kept, token, i, Decorate(kept, token).error);
      assert KeyOf(kept[i], token) == Err(GetSortedFiles(dataDir, listing, format, token).error);
    }
  }

  /**
   * The result holds exactly the entries whose suffix is the format, each as
   * often as it is listed: a permutation of the filtered listing.
   */
  lemma SortedFilesPermutation(dataDir: string, listing: Option<seq<string>>, format: string, token: string, out: seq<string>)
    requires GetSortedFiles(dataDir, listing, format, token) == Ok(out)
    ensures listing.Some?
    ensures multiset(out) == multiset(Kept(listing.value, format))
    ensures forall n :: multiset(out)[n] == if Suffix(n) == format then multiset(listing.value)[n] else 0
  {
    var kept := Kept(listing.value, format);
    var es := Decorate(kept, token).value;
    DecorateKeys(kept, token);
    SortByKeyNames(es);
    KeptCount(listing.value, format);
  }

  lemma {:induction false} InsertNames(e: Entry, es: seq<Entry>)
    ensures multiset(Names(Insert(e, es))) == multiset(Names(es)) + multiset{e.name}
  {
    if es != [] && e.key > es[0].key {
      InsertNames(e, es[1..]);
      assert Names(Insert(e, es)) == [es[0].name] + Names(Insert(e, es[1..]));
      assert Names(es) == [es[0].name] + Names(es[1..]);
    } else {
      assert Names(Insert(e, es)) == [e.name] + Names(es);
    }
  }

  lemma {:induction false} SortByKeyNames(es: seq<Entry>)
    ensures multiset(Names(SortByKey(es))) == multiset(Names(es))
  {
    if es != [] {
      SortByKeyNames(es[1..]);
      InsertNames(es[0], SortByKey(es[1..]));
      assert Names(es) == [es[0].name] + Names(es[1..]);
    }
  }

  /** Every returned name has a key, and the keys never decrease along the result. */
  lemma SortedFilesAscending(dataDir: string, listing: Option<seq<string>>, format: string, token: string, out: seq<string>)
    requires GetSortedFiles(dataDir, listing, format, token) == Ok(out)
    ensures Keyed(out, token) && Ascending(out, token)
  {
    var kept := Kept(listing.value, format);
    var es := Decorate(kept, token).value;
    DecorateKeys(kept, token);
    SortByKeyWellKeyed(es, token);
    SortByKeySorted(es);
  }

  /** Names with equal keys come out in the order the directory listed them. */
  lemma SortedFilesStable(dataDir: string, listing: Option<seq<string>>, format: string, token: string, out: seq<string>, k: int)
    requires GetSortedFiles(dataDir, listing, format, token) == Ok(out)
    ensures NamesWithKey(out, token, k) == NamesWithKey(Kept(listing.value, format), token, k)
  {
    var kept := Kept(listing.value, format);
    var es := Decorate(kept, token).value;
    DecorateKeys(kept, token);
    SortByKeyWellKeyed(es, token);
    SortByKeyStable(es, k);
    NamesOfWithKey(SortByKey(es), token, k);
    NamesOfWithKey(es, token, k);
  }

  /**
   * Any ordering of the filtered listing that is ascending by key and keeps
   * the listing order among equal keys is the one get_sorted_files returns.
   */
  lemma SortedFilesUnique(dataDir: string, listing: Option<seq<string>>, format: string, token: string, out: seq<string>, other: seq<string>)
    requires GetSortedFiles(dataDir, listing, format, token) == Ok(out)
    requires Keyed(other, token) && Ascending(other, token)
    requires forall k :: NamesWithKey(other, token, k) == NamesWithKey(Kept(listing.value, format), token, k)
    ensures other == out
  {
    SortedFilesAscending(dataDir, listing, format, token, out);
    forall k ensures NamesWithKey(out, token, k) == NamesWithKey(other, token, k) {
      SortedFilesStable(dataDir, listing, format, token, out, k);
    }
    AscendingStableUnique(out, other, token);
  }
}
