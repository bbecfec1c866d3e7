/**
 * Chip labels of the window switcher (src/switcher.cpp): the friendly
 * process name, the disambiguation of repeated titles in
 * `enumerate_windows`, and the truncation step of `compute_layout`.
 */
module Labels {
  import opened Wrappers

  /** An opaque HWND; 0 stands for nullptr. */
  type Handle = nat

  /** One enumerated top-level window (src/switcher.cpp `WindowEntry`). */
  datatype WindowEntry = WindowEntry(hwnd: Handle, title: string)

  // ---------------------------------------------------------------------
  // Decimal rendering of the occurrence index (std::to_wstring)
  // ---------------------------------------------------------------------

  predicate IsDigit(c: char) { '0' <= c <= '9' }

  function DigitChar(d: nat): (c: char)
    requires d < 10
    ensures IsDigit(c) && (c as int) - ('0' as int) == d
  {
    (('0' as int) + d) as char
  }

  /** `std::to_wstring(n)` for a natural number: its decimal digits. */
  function Decimal(n: nat): (s: string)
    ensures |s| >= 1
    ensures forall i :: 0 <= i < |s| ==> IsDigit(s[i])
  {
    if n < 10 then [DigitChar(n)] else Decimal(n / 10) + [DigitChar(n % 10)]
  }

  /** The value of one decimal digit. */
  function DigitValue(c: char): (d: nat)
    requires IsDigit(c)
    ensures d < 10
  {
    (c as int) - ('0' as int)
  }

  /** The value of a string of decimal digits. */
  function DecimalValue(s: string): nat
    requires forall i :: 0 <= i < |s| ==> IsDigit(s[i])
  {
    if s == [] then 0
    else DecimalValue(s[..|s| - 1]) * 10 + DigitValue(s[|s| - 1])
  }

  /** Reading the digits back gives the number: `Decimal` loses nothing. */
  lemma {:induction false} DecimalRoundTrip(n: nat)
    ensures DecimalValue(Decimal(n)) == n
  {
    if n >= 10 {
      DecimalRoundTrip(n / 10);
      var s := Decimal(n);
      assert s[..|s| - 1] == Decimal(n / 10);
    }
  }

  /** Distinct numbers have distinct decimal renderings. */
  lemma DecimalInjective(a: nat, b: nat)
    requires Decimal(a) == Decimal(b)
    ensures a == b
  {
    DecimalRoundTrip(a);
    DecimalRoundTrip(b);
  }

  // ---------------------------------------------------------------------
  // Disambiguation of repeated titles (src/switcher.cpp:205-215)
  // ---------------------------------------------------------------------

  /** How many times `t` occurs in `s`. */
  function Occurrences(s: seq<string>, t: string): nat
  {
    if s == [] then 0
    else Occurrences(s[..|s| - 1], t) + (if s[|s| - 1] == t then 1 else 0)
  }

  /** Counting one more element. */
  lemma OccurrencesSnoc(s: seq<string>, x: string, t: string)
    ensures Occurrences(s + [x], t) == Occurrences(s, t) + (if x == t then 1 else 0)
  {
    assert (s + [x])[..|s|] == s;
  }

  /** Counting over one more element of a prefix. */
  lemma OccurrencesStep(s: seq<string>, i: nat, t: string)
    requires i < |s|
    ensures Occurrences(s[..i + 1], t) == Occurrences(s[..i], t) + (if s[i] == t then 1 else 0)
  {
    assert s[..i + 1] == s[..i] + [s[i]];
    OccurrencesSnoc(s[..i], s[i], t);
  }

  /** The text appended to the k-th occurrence of a repeated title: `" (k)"`. */
  function Suffix(k: nat): string
  {
    " (" + Decimal(k) + ")"
  }

  /**
   * The disambiguated label list: a title that occurs more than once gets
   * `" (k)"` appended, k being the 1-based position of this occurrence among
   * the occurrences of the same title; every other title is unchanged.
   */
  function Disambiguated(titles: seq<string>): (out: seq<string>)
    ensures |out| == |titles|
    ensures forall i :: 0 <= i < |titles| ==> out[i] == Label(titles, i)
  {
    seq(|titles|, i requires 0 <= i < |titles| => Label(titles, i))
  }

  /** The label of the i-th title of the list. */
  function Label(titles: seq<string>, i: nat): string
    requires i < |titles|
  {
    if Occurrences(titles, titles[i]) > 1
    then titles[i] + Suffix(Occurrences(titles[..i + 1], titles[i]))
    else titles[i]
  }

  /** `counts[t]` / `seen[t]` of an `unordered_map<wstring, int>`: absent keys read as 0. */
  function Get(m: map<string, nat>, t: string): nat
  {
    if t in m then m[t] else 0
  }

  /**
   * The two counting passes of `enumerate_windows`: first count every title,
   * then append `" (k)"` in place to each title counted more than once, k
   * from a second map of occurrences seen so far. Handles and order are kept.
   */
  method Disambiguate(windows: seq<WindowEntry>) returns (out: seq<WindowEntry>)
    ensures |out| == |windows|
    ensures forall i :: 0 <= i < |windows| ==> out[i].hwnd == windows[i].hwnd
    ensures Titles(out) == Disambiguated(Titles(windows))
  {
    var counts := CountTitles(windows);
    out := AppendSuffixes(windows, counts);
  }

  /** The first pass (src/switcher.cpp:205-206): how often each title occurs. */
  method CountTitles(windows: seq<WindowEntry>) returns (counts: map<string, nat>)
    ensures forall t :: Get(counts, t) == Occurrences(Titles(windows), t)
  {
    ghost var titles := Titles(windows);
    counts := map[];
    for i := 0 to |windows|
      invariant forall t :: Get(counts, t) == Occurrences(titles[..i], t)
    {
      var t := windows[i].title;
      assert t == titles[i];
      var next := counts[t := Get(counts, t) + 1];
      forall u ensures Get(next, u) == Occurrences(titles[..i + 1], u) {
        OccurrencesStep(titles, i, u);
      }
      counts := next;
    }
    assert titles[..|windows|] == titles;
  }

  /**
   * The second pass (src/switcher.cpp:208-214): each title counted more
   * than once gets the suffix of its occurrence number so far.
   */
  method AppendSuffixes(windows: seq<WindowEntry>, counts: map<string, nat>) returns (out: seq<WindowEntry>)
    requires forall t :: Get(counts, t) == Occurrences(Titles(windows), t)
    ensures |out| == |windows|
    ensures forall i :: 0 <= i < |windows| ==> out[i].hwnd == windows[i].hwnd
    ensures Titles(out) == Disambiguated(Titles(windows))
  {
    ghost var titles := Titles(windows);
    var seen: map<string, nat> := map[];
    out := windows;
    assert out == Relabelled(windows, 0);
    for i := 0 to |windows|
      invariant out == Relabelled(windows, i)
      invariant SeenSoFar(seen, titles, i)
    {
      var t := out[i].title;
      assert t == titles[i];
      assert Get(counts, t) == Occurrences(titles, t);
      SeenStep(seen, titles, i);
      ghost var before := seen;
      if Get(counts, t) > 1 {
        var idx := Get(seen, t) + 1;
        seen := seen[t := idx];
        out := out[i := WindowEntry(out[i].hwnd, t + Suffix(idx))];
      }
      RelabelledStep(windows, i, out);
      assert seen == NextSeen(before, titles, i);
    }
    RelabelledAll(windows);
  }

  /** The list with the first i titles replaced by their labels. */
  ghost function Relabelled(windows: seq<WindowEntry>, i: nat): (out: seq<WindowEntry>)
    requires i <= |windows|
    ensures |out| == |windows|
  {
    seq(|windows|, j requires 0 <= j < |windows| =>
      if j < i then WindowEntry(windows[j].hwnd, Label(Titles(windows), j)) else windows[j])
  }

  lemma RelabelledStep(windows: seq<WindowEntry>, i: nat, out: seq<WindowEntry>)
    requires i < |windows|
    requires out == Relabelled(windows, i)[i := WindowEntry(windows[i].hwnd, Label(Titles(windows), i))]
    ensures out == Relabelled(windows, i + 1)
  {
  }

  lemma RelabelledAll(windows: seq<WindowEntry>)
    ensures var out := Relabelled(windows, |windows|);
      && (forall i :: 0 <= i < |windows| ==> out[i].hwnd == windows[i].hwnd)
      && Titles(out) == Disambiguated(Titles(windows))
  {
    var out := Relabelled(windows, |windows|);
    assert forall j :: 0 <= j < |windows| ==> Titles(out)[j] == Disambiguated(Titles(windows))[j];
  }

  /** `seen` after the first i titles: occurrences so far of each repeated title. */
  ghost predicate SeenSoFar(seen: map<string, nat>, titles: seq<string>, i: nat)
    requires i <= |titles|
  {
    forall t :: Get(seen, t) == if Occurrences(titles, t) > 1 then Occurrences(titles[..i], t) else 0
  }

  /** `seen` after title i: its count goes up by one when the title is repeated. */
  function NextSeen(seen: map<string, nat>, titles: seq<string>, i: nat): map<string, nat>
    requires i < |titles|
  {
    var t := titles[i];
    if Occurrences(titles, t) > 1 then seen[t := Get(seen, t) + 1] else seen
  }

  /** One entry of `seen` across step i. */
  lemma SeenEntry(seen: map<string, nat>, titles: seq<string>, i: nat, u: string)
    requires i < |titles| && SeenSoFar(seen, titles, i)
    ensures Get(NextSeen(seen, titles, i), u) == if Occurrences(titles, u) > 1 then Occurrences(titles[..i + 1], u) else 0
  {
    OccurrencesStep(titles, i, u);
    assert Get(seen, u) == if Occurrences(titles, u) > 1 then Occurrences(titles[..i], u) else 0;
  }

  /** One step of the second pass: the label of title i and the updated `seen`. */
  lemma SeenStep(seen: map<string, nat>, titles: seq<string>, i: nat)
    requires i < |titles| && SeenSoFar(seen, titles, i)
    ensures Label(titles, i) == if Occurrences(titles, titles[i]) > 1 then titles[i] + Suffix(Get(seen, titles[i]) + 1) else titles[i]
    ensures SeenSoFar(NextSeen(seen, titles, i), titles, i + 1)
  {
    var t := titles[i];
    OccurrencesStep(titles, i, t);
    assert Get(seen, t) == if Occurrences(titles, t) > 1 then Occurrences(titles[..i], t) else 0;
    forall u ensures Get(NextSeen(seen, titles, i), u) == if Occurrences(titles, u) > 1 then Occurrences(titles[..i + 1], u) else 0 {
      SeenEntry(seen, titles, i, u);
    }
  }

  function Titles(ws: seq<WindowEntry>): (ts: seq<string>)
    ensures |ts| == |ws|
    ensures forall i :: 0 <= i < |ws| ==> ts[i] == ws[i].title
  {
    seq(|ws|, i requires 0 <= i < |ws| => ws[i].title)
  }

  /** Every label starts with its original title, so order and text are kept. */
  lemma DisambiguatedKeepsTitle(titles: seq<string>, i: nat)
    requires i < |titles|
    ensures |titles[i]| <= |Disambiguated(titles)[i]|
    ensures Disambiguated(titles)[i][..|titles[i]|] == titles[i]
    ensures Occurrences(titles, titles[i]) <= 1 ==> Disambiguated(titles)[i] == titles[i]
  {
  }

  /**
   * Two occurrences of the same title receive different labels: their
   * occurrence indices differ, and so do the rendered suffixes.
   */
  lemma {:induction false} RepeatedTitlesSeparated(titles: seq<string>, i: nat, j: nat)
    requires i < j < |titles| && titles[i] == titles[j]
    ensures Disambiguated(titles)[i] != Disambiguated(titles)[j]
  {
    var t := titles[i];
    OccurrencesPrefixGrows(titles, i, j);
    OccurrencesPrefixAtMost(titles, j + 1, t);
    var a, b := Occurrences(titles[..i + 1], t), Occurrences(titles[..j + 1], t);
    assert Label(titles, i) == t + Suffix(a);
    assert Label(titles, j) == t + Suffix(b);
    if t + Suffix(a) == t + Suffix(b) {
      SuffixInjective(t, a, b);
    }
  }

  /** The same title with different occurrence indices gives different labels. */
  lemma {:induction false} SuffixInjective(t: string, a: nat, b: nat)
    requires t + Suffix(a) == t + Suffix(b)
    ensures a == b
  {
    assert (t + Suffix(a))[|t|..] == Suffix(a);
    assert (t + Suffix(b))[|t|..] == Suffix(b);
    var x, y := Suffix(a), Suffix(b);
    assert x[2..|x| - 1] == Decimal(a);
    assert y[2..|y| - 1] == Decimal(b);
    DecimalInjective(a, b);
  }

  /** A later occurrence of the same title has a strictly larger prefix count. */
  lemma {:induction false} OccurrencesPrefixGrows(titles: seq<string>, i: nat, j: nat)
    requires i < j < |titles| && titles[i] == titles[j]
    ensures 1 <= Occurrences(titles[..i + 1], titles[i]) < Occurrences(titles[..j + 1], titles[i])
  {
    var t := titles[i];
    assert titles[..j + 1][..j] == titles[..j];
    assert titles[..i + 1][..i] == titles[..i];
    OccurrencesMonotone(titles, i + 1, j, t);
  }

  lemma {:induction false} OccurrencesMonotone(s: seq<string>, m: nat, n: nat, t: string)
    requires m <= n <= |s|
    ensures Occurrences(s[..m], t) <= Occurrences(s[..n], t)
    decreases n - m
  {
    if m < n {
      OccurrencesMonotone(s, m, n - 1, t);
      assert s[..n][..n - 1] == s[..n - 1];
    }
  }

  lemma {:induction false} OccurrencesPrefixAtMost(s: seq<string>, n: nat, t: string)
    requires n <= |s|
    ensures Occurrences(s[..n], t) <= Occurrences(s, t)
  {
    OccurrencesMonotone(s, n, |s|, t);
    assert s[..|s|] == s;
  }

  /** Two windows titled "Chrome" and one titled "Terminal". */
  lemma ChromeExample()
    ensures Disambiguated(["Chrome", "Chrome", "Terminal"]) == ["Chrome (1)", "Chrome (2)", "Terminal"]
  {
    var c, m := "Chrome", "Terminal";
    var s := [c, c, m];
    assert c != m;
    OccurrencesSnoc([], c, c);
    OccurrencesSnoc([], c, m);
    assert [] + [c] == [c];
    OccurrencesSnoc([c], c, c);
    OccurrencesSnoc([c], c, m);
    assert [c] + [c] == [c, c];
    OccurrencesSnoc([c, c], m, c);
    OccurrencesSnoc([c, c], m, m);
    assert [c, c] + [m] == s;
    assert s[..1] == [c] && s[..2] == [c, c] && s[..3] == s;
    assert Label(s, 0) == c + Suffix(1);
    assert Label(s, 1) == c + Suffix(2);
    assert Label(s, 2) == m;
    assert Suffix(1) == " (1)" && Suffix(2) == " (2)";
    var out := Disambiguated(s);
    assert |out| == 3 && out[0] == "Chrome (1)" && out[1] == "Chrome (2)" && out[2] == "Terminal";
  }

  // ---------------------------------------------------------------------
  // Truncation (src/switcher.cpp:257-259)
  // ---------------------------------------------------------------------

  const MaxTitleLen: nat := 24

  /**
   * A label longer than 24 characters keeps its first 21 characters and
   * ends in "..."; a shorter one is unchanged.
   */
  function Truncate(title: string): (r: string)
    ensures |r| == if |title| > MaxTitleLen then MaxTitleLen else |title|
    ensures |title| <= MaxTitleLen ==> r == title
  {
    if |title| > MaxTitleLen then title[..MaxTitleLen - 3] + "..." else title
  }

  /** A truncated label keeps the head of the title and ends in an ellipsis. */
  lemma TruncateShape(title: string)
    requires |title| > MaxTitleLen
    ensures Truncate(title)[..MaxTitleLen - 3] == title[..MaxTitleLen - 3]
    ensures Truncate(title)[MaxTitleLen - 3..] == "..."
  {
  }

  /** Truncating twice is truncating once. */
  lemma TruncateIdempotent(title: string)
    ensures Truncate(Truncate(title)) == Truncate(title)
  {
  }

  /**
   * Disambiguation runs before truncation, so two windows with the same long
   * title end up with the same chip text: the suffixes are cut off.
   */
  lemma {:induction false} LongDuplicatesCollide(t: string)
    requires |t| >= MaxTitleLen
    ensures var out := Disambiguated([t, t]);
            out[0] != out[1] && Truncate(out[0]) == Truncate(out[1])
  {
    var s := [t, t];
    OccurrencesSnoc([], t, t);
    assert [] + [t] == [t];
    OccurrencesSnoc([t], t, t);
    assert [t] + [t] == s;
    assert s[..1] == [t] && s[..2] == s;
    RepeatedTitlesSeparated(s, 0, 1);
    var out := Disambiguated(s);
    TruncateShape(out[0]);
    TruncateShape(out[1]);
    assert out[0][..MaxTitleLen - 3] == t[..MaxTitleLen - 3];
    assert out[1][..MaxTitleLen - 3] == t[..MaxTitleLen - 3];
  }

  // ---------------------------------------------------------------------
  // Friendly process names (src/switcher.cpp:98-149)
  // ---------------------------------------------------------------------

  /** `kFriendlyNames`: lower-case executable stem and its display name. */
  const FriendlyNames: seq<(string, string)> := [
    ("code", "VS Code"), ("msedge", "Edge"), ("chrome", "Chrome"),
    ("firefox", "Firefox"), ("explorer", "Explorer"),
    ("windowsterminal", "Terminal"), ("wt", "Terminal"), ("cmd", "CMD"),
    ("powershell", "PowerShell"), ("pwsh", "PowerShell"),
    ("notepad", "Notepad"), ("slack", "Slack"), ("discord", "Discord"),
    ("msteams", "Teams")
  ]

  /** `find_last_of(c)`: the last position holding c, if any. */
  function LastIndexOf(s: string, c: char): (r: Option<nat>)
    ensures r.Some? ==> r.value < |s| && s[r.value] == c
    ensures r.Some? ==> forall j :: r.value < j < |s| ==> s[j] != c
    ensures r.None? <==> forall j :: 0 <= j < |s| ==> s[j] != c
  {
    if s == [] then None
    else if s[|s| - 1] == c then Some(|s| - 1)
    else LastIndexOf(s[..|s| - 1], c)
  }

  /**
   * The file name: everything after the last backslash, or the whole path
   * without one.
   */
  function BaseName(path: string): (name: string)
    ensures forall j :: 0 <= j < |name| ==> name[j] != '\\'
    ensures exists k :: 0 <= k <= |path| && path[k..] == name && (k == 0 || path[k - 1] == '\\')
  {
    match LastIndexOf(path, '\\')
    case Some(k) =>
      assert path[k + 1..] == path[k + 1..] && path[k + 1 - 1] == '\\';
      path[k + 1..]
    case None => assert path[0..] == path; path
  }

  /** The stem: everything before the last dot, or all of it without a dot. */
  function Stem(name: string): (stem: string)
    ensures |stem| <= |name| && name[..|stem|] == stem
    ensures |stem| < |name| ==> name[|stem|] == '.' && forall j :: |stem| < j < |name| ==> name[j] != '.'
    ensures |stem| == |name| ==> forall j :: 0 <= j < |name| ==> name[j] != '.'
  {
    match LastIndexOf(name, '.')
    case Some(k) => name[..k]
    case None => name
  }

  /** `towlower` on the basic Latin letters. */
  function LowerChar(c: char): (l: char)
    ensures 'A' <= c <= 'Z' ==> 'a' <= l <= 'z' && l as int == c as int + 32
    ensures !('A' <= c <= 'Z') ==> l == c
  {
    if 'A' <= c <= 'Z' then ((c as int) + 32) as char else c
  }

  /** The display name of a full image path, as `get_display_name` derives it. */
  function FriendlyName(path: Option<string>): string
  {
    match path
    case None => ""
    case Some(p) =>
      var stem := Stem(BaseName(p));
      var lower := seq(|stem|, i requires 0 <= i < |stem| => LowerChar(stem[i]));
      match LookupName(FriendlyNames, lower)
      case Some(display) => display
      case None => stem
  }

  /** The display name of the first table row whose executable stem is `key`. */
  function LookupName(table: seq<(string, string)>, key: string): (r: Option<string>)
    ensures r.Some? <==> exists i :: 0 <= i < |table| && table[i].0 == key
    ensures r.Some? ==> exists i :: 0 <= i < |table| && table[i].0 == key && table[i].1 == r.value &&
                          forall j :: 0 <= j < i ==> table[j].0 != key
  {
    if table == [] then None
    else if table[0].0 == key then Some(table[0].1)
    else
      var r := LookupName(table[1..], key);
      assert r.Some? ==> exists i :: 1 <= i < |table| && table[i].0 == key && table[i].1 == r.value &&
                          forall j :: 0 <= j < i ==> table[j].0 != key by {
        if r.Some? {
          var i :| 0 <= i < |table[1..]| && table[1..][i].0 == key && table[1..][i].1 == r.value &&
                   forall j :: 0 <= j < i ==> table[1..][j].0 != key;
          assert table[i + 1].0 == key && forall j :: 0 <= j < i + 1 ==> table[j].0 != key by {
            forall j | 0 <= j < i + 1 ensures table[j].0 != key {
              if j > 0 { assert table[j] == table[1..][j - 1]; }
            }
          }
        }
      }
      assert (exists i :: 0 <= i < |table| && table[i].0 == key) ==> (exists i :: 0 <= i < |table[1..]| && table[1..][i].0 == key) by {
        if exists i :: 0 <= i < |table| && table[i].0 == key {
          var i :| 0 <= i < |table| && table[i].0 == key;
          assert i > 0 && table[1..][i - 1].0 == key;
        }
      }
      r
  }

  /** No backslash is left in the stem of a path's file name. */
  lemma StemHasNoDirectory(p: string)
    ensures forall j :: 0 <= j < |Stem(BaseName(p))| ==> Stem(BaseName(p))[j] != '\\'
  {
  }

  /** Skipping a table row whose key differs does not change the lookup. */
  lemma LookupSkip(table: seq<(string, string)>, k: nat, key: string)
    requires k < |table| && table[k].0 != key
    ensures LookupName(table[k..], key) == LookupName(table[k + 1..], key)
  {
    assert table[k..][1..] == table[k + 1..];
  }

  /**
   * `get_display_name` from the image path on (src/switcher.cpp:130-149).
   * `path` is None when the process query fails, and the name is then
   * empty; otherwise the stem of the file name is lower-cased in place and
   * looked up in the table, and an unmapped stem keeps its own case.
   */
  method DisplayName(path: Option<string>) returns (name: string)
    ensures name == FriendlyName(path)
  {
    if path.None? {
      return "";
    }
    var filename := Stem(BaseName(path.value));
    var lower := LowerAll(filename);
    var found := Lookup(FriendlyNames, lower);
    if found.Some? {
      return found.value;
    }
    name := filename;
  }

  /** The in-place `towlower` loop of `get_display_name` (src/switcher.cpp:140-141). */
  method LowerAll(s: string) returns (lower: string)
    ensures lower == seq(|s|, i requires 0 <= i < |s| => LowerChar(s[i]))
  {
    lower := s;
    for i := 0 to |lower|
      invariant |lower| == |s|
      invariant forall j :: 0 <= j < i ==> lower[j] == LowerChar(s[j])
      invariant forall j :: i <= j < |lower| ==> lower[j] == s[j]
    {
      lower := lower[i := LowerChar(lower[i])];
    }
  }

  /** The table scan of `get_display_name` (src/switcher.cpp:143-147). */
  method Lookup(table: seq<(string, string)>, key: string) returns (r: Option<string>)
    ensures r == LookupName(table, key)
  {
    assert table[0..] == table;
    var k := 0;
    while k < |table|
      invariant 0 <= k <= |table|
      invariant LookupName(table, key) == LookupName(table[k..], key)
    {
      if key == table[k].0 {
        return Some(table[k].1);
      }
      LookupSkip(table, k, key);
      k := k + 1;
    }
    return None;
  }
}
