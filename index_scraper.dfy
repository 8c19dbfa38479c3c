/**
 * The pure rules of index_scraper/main.py: the file name cleaner
 * `sanitize_filename`, the chain of guards that decides which anchors of a
 * directory listing are downloaded, and the loop that picks a file name not
 * yet present in the output directory.
 */
module IndexScraper {
  import opened Text
  import opened Wrappers

  // ---------------------------------------------------------------------
  // Character classes
  // ---------------------------------------------------------------------

  /** The ASCII word characters: letters, digits and the underscore. */
  predicate AsciiWord(c: char)
  {
    ('a' <= c <= 'z') || ('A' <= c <= 'Z') || ('0' <= c <= '9') || c == '_'
  }

  /**
   * A stand-in for the regular-expression class `\w` of Python's `re` on
   * `str` patterns. It is fixed on the ASCII range; which non-ASCII
   * characters count as word characters is left to the caller.
   */
  type WordClass = w: char -> bool | forall c :: c < '\U{80}' ==> (w(c) <==> AsciiWord(c))
    witness AsciiWord

  /** The characters the pattern `[^\w.\-_]` leaves alone. */
  /** The ASCII characters the cleaner tests against the word class. */
  lemma WordClassOnAscii(w: WordClass)
    ensures w('_') && Allowed(w, '_')
    ensures !Allowed(w, '%') && !Allowed(w, ' ')
  {
    assert AsciiWord('_') && !AsciiWord('%') && !AsciiWord(' ');
  }

  predicate Allowed(w: WordClass, c: char)
  {
    w(c) || c == '.' || c == '-' || c == '_'
  }

  /** The characters `strip("._ ")` removes from both ends. */
  predicate StripChar(c: char)
  {
    c == '.' || c == '_' || c == ' '
  }

  /** Neither end of `s` is a character `strip("._ ")` removes. */
  predicate Trimmed(s: string)
  {
    s != [] ==> !StripChar(s[0]) && !StripChar(s[|s| - 1])
  }

  predicate NoDoubleUnderscore(s: string)
  {
    forall k :: 0 <= k < |s| - 1 ==> !(s[k] == '_' && s[k + 1] == '_')
  }

  // ---------------------------------------------------------------------
  // Percent-decoding (section 2.1 of RFC 3986), ASCII escapes only
  // ---------------------------------------------------------------------

  predicate IsHexDigit(c: char)
  {
    ('0' <= c <= '9') || ('A' <= c <= 'F') || ('a' <= c <= 'f')
  }

  function HexValue(c: char): (v: nat)
    requires IsHexDigit(c)
    ensures v < 16
  {
    if '0' <= c <= '9' then c as int - '0' as int
    else if 'A' <= c <= 'F' then c as int - 'A' as int + 10
    else c as int - 'a' as int + 10
  }

  /** The upper-case hex digit of `d`. */
  function HexChar(d: nat): (c: char)
    requires d < 16
    ensures IsHexDigit(c) && HexValue(c) == d
  {
    if d < 10 then ('0' as int + d) as char else ('A' as int + d - 10) as char
  }

  /** `%XX` at the front of `s` encodes an ASCII character. */
  predicate AsciiEscapeAt(s: string)
  {
    |s| >= 3 && s[0] == '%' && IsHexDigit(s[1]) && IsHexDigit(s[2]) && HexValue(s[1]) * 16 + HexValue(s[2]) < 0x80
  }

  /**
   * `urllib.parse.unquote`: every `%XX` escape of an ASCII character is
   * replaced by that character, scanning left to right; a decoded `%` does
   * not start a new escape. Anything else, including escapes of bytes from
   * 0x80 up, is kept as it stands.
   */
  function Unquote(s: string): (r: string)
    ensures '%' !in s ==> r == s
    ensures |r| <= |s|
    ensures forall c :: c in r && c !in s ==> c < '\U{80}'
    decreases |s|
  {
    if s == [] then []
    else if AsciiEscapeAt(s) then [(HexValue(s[1]) * 16 + HexValue(s[2])) as char] + Unquote(s[3..])
    else [s[0]] + Unquote(s[1..])
  }

  /** The unreserved characters of section 2.3 of RFC 3986. */
  predicate Unreserved(c: char)
  {
    ('a' <= c <= 'z') || ('A' <= c <= 'Z') || ('0' <= c <= '9') || c == '-' || c == '.' || c == '_' || c == '~'
  }

  /**
   * Percent-encoding of every ASCII character outside the unreserved set,
   * the way a URL path carries a file name; other characters pass through.
   */
  function PercentEncode(s: string): (r: string)
    ensures forall c :: c in r ==> Unreserved(c) || IsHexDigit(c) || c == '%' || c >= '\U{80}'
    decreases |s|
  {
    if s == [] then []
    else
      var c := s[0];
      var head := if c < '\U{80}' && !Unreserved(c) then ['%', HexChar(c as int / 16), HexChar(c as int % 16)] else [c];
      head + PercentEncode(s[1..])
  }

  /** Decoding undoes encoding. */
  lemma {:induction false} UnquotePercentEncode(s: string)
    ensures Unquote(PercentEncode(s)) == s
    decreases |s|
  {
    if s != [] {
      var c := s[0];
      var e := PercentEncode(s);
      var rest := PercentEncode(s[1..]);
      UnquotePercentEncode(s[1..]);
      if c < '\U{80}' && !Unreserved(c) {
        var hi, lo := HexChar(c as int / 16), HexChar(c as int % 16);
        assert e == ['%', hi, lo] + rest;
        assert AsciiEscapeAt(e);
        assert e[3..] == rest;
        assert (HexValue(hi) * 16 + HexValue(lo)) as char == c;
      } else {
        assert e == [c] + rest;
        assert !AsciiEscapeAt(e);
        assert e[1..] == rest;
      }
    }
  }

  // ---------------------------------------------------------------------
  // The rewriting steps of sanitize_filename
  // ---------------------------------------------------------------------

  /** `re.sub(r"[^\w.\-_]", "_", name)`: every other character becomes `_`. */
  function ReplaceInvalid(s: string, w: WordClass): (r: string)
    ensures |r| == |s|
    ensures forall k :: 0 <= k < |s| ==> r[k] == (if Allowed(w, s[k]) then s[k] else '_')
    ensures forall c :: c in r ==> Allowed(w, c)
    ensures forall c :: c in r ==> c in s || c == '_'
    ensures (forall c :: c in s ==> Allowed(w, c)) ==> r == s
    decreases |s|
  {
    if s == [] then []
    else [if Allowed(w, s[0]) then s[0] else '_'] + ReplaceInvalid(s[1..], w)
  }

  /** `re.sub(r"_+", "_", name)`: every run of underscores becomes one. */
  function Collapse(s: string): (r: string)
    ensures NoDoubleUnderscore(r)
    ensures s != [] ==> r != [] && r[0] == s[0]
    ensures forall c :: c in r ==> c in s
    ensures ('_' in r <==> '_' in s)
    ensures NoDoubleUnderscore(s) ==> r == s
    decreases |s|
  {
    if s == [] then []
    else if |s| >= 2 && s[0] == '_' && s[1] == '_' then Collapse(s[1..])
    else
      var rest := Collapse(s[1..]);
      assert s[0] == '_' && rest != [] ==> rest[0] == s[1] != '_';
      [s[0]] + rest
  }

  /** Collapsing keeps every character other than the underscore, in order. */
  lemma {:induction false} CollapseKeepsOthers(s: string)
    ensures Others(Collapse(s)) == Others(s)
    decreases |s|
  {
    if s != [] {
      CollapseKeepsOthers(s[1..]);
      if |s| >= 2 && s[0] == '_' && s[1] == '_' {
      } else {
        assert ([s[0]] + Collapse(s[1..]))[1..] == Collapse(s[1..]);
      }
    }
  }

  /**
   * Collapsing works run by run: a character other than `_` separates what
   * comes before it from what comes after it.
   */
  lemma {:induction false} CollapseAround(a: string, c: char, b: string)
    requires c != '_'
    ensures Collapse(a + [c] + b) == Collapse(a) + [c] + Collapse(b)
    decreases |a|
  {
    if a == [] {
      CollapseCons(c, b);
      assert a + [c] + b == [c] + b;
    } else {
      var t := a[1..] + [c] + b;
      assert a + [c] + b == [a[0]] + t;
      assert a == [a[0]] + a[1..];
      CollapseCons(a[0], t);
      CollapseCons(a[0], a[1..]);
      CollapseAround(a[1..], c, b);
      var rest := Collapse(a[1..]);
      assert t[0] == (if a[1..] == [] then c else a[1..][0]);
      if a[0] == '_' && t[0] == '_' {
        assert Collapse(a + [c] + b) == rest + [c] + Collapse(b);
      } else {
        assert Collapse(a + [c] + b) == [a[0]] + (rest + [c] + Collapse(b));
        ConsAssoc(a[0], rest, c, Collapse(b));
      }
    }
  }

  lemma ConsAssoc(x: char, r: string, c: char, b: string)
    ensures [x] + (r + [c] + b) == [x] + r + [c] + b
  {
  }

  /** One step of the collapse: an underscore followed by another is dropped. */
  lemma CollapseCons(x: char, t: string)
    ensures Collapse([x] + t) ==
            if x == '_' && t != [] && t[0] == '_' then Collapse(t) else [x] + Collapse(t)
  {
    assert ([x] + t)[1..] == t;
  }

  /** A run of one or more underscores collapses to a single one. */
  lemma {:induction false} CollapseRun(n: nat)
    requires n >= 1
    ensures Collapse(seq(n, _ => '_')) == "_"
  {
    var s := seq(n, _ => '_');
    if n > 1 {
      CollapseRun(n - 1);
      assert s[1..] == seq(n - 1, _ => '_');
    } else {
      assert s[1..] == [];
    }
  }

  /** The characters of `s` other than `_`, in order. */
  function Others(s: string): string
    decreases |s|
  {
    if s == [] then [] else (if s[0] == '_' then [] else [s[0]]) + Others(s[1..])
  }

  /** `lstrip("._ ")`. */
  function StripLeft(s: string): (r: string)
    ensures |r| <= |s| && r == s[|s| - |r|..]
    ensures forall k :: 0 <= k < |s| - |r| ==> StripChar(s[k])
    ensures r != [] ==> !StripChar(r[0])
    decreases |s|
  {
    if s != [] && StripChar(s[0]) then StripLeft(s[1..]) else s
  }

  /** `rstrip("._ ")`. */
  function StripRight(s: string): (r: string)
    ensures |r| <= |s| && r == s[..|r|]
    ensures forall k :: |r| <= k < |s| ==> StripChar(s[k])
    ensures r != [] ==> !StripChar(r[|r| - 1])
    decreases |s|
  {
    if s != [] && StripChar(s[|s| - 1]) then StripRight(s[..|s| - 1]) else s
  }

  /** `strip("._ ")`: a middle slice of `s` that neither starts nor ends with `.`, `_` or a space. */
  function Strip(s: string): (r: string)
    ensures Trimmed(r)
    ensures exists i :: StrippedSlice(s, i, r)
    ensures forall c :: c in r ==> c in s
    ensures NoDoubleUnderscore(s) ==> NoDoubleUnderscore(r)
    ensures Trimmed(s) ==> r == s
    ensures (forall c :: c in s ==> StripChar(c)) ==> r == []
  {
    var left := StripLeft(s);
    var r := StripRight(left);
    assert exists i :: StrippedSlice(s, i, r) by {
      StripBounds(s, left, r);
    }
    StripEnds(s, left, r);
    r
  }

  /** `r` is `s` from position `i` on, less strip characters at both ends. */
  predicate StrippedSlice(s: string, i: int, r: string)
  {
    && 0 <= i <= i + |r| <= |s|
    && r == s[i..i + |r|]
    && (forall k :: 0 <= k < i ==> StripChar(s[k]))
    && (forall k :: i + |r| <= k < |s| ==> StripChar(s[k]))
  }

  lemma StripEnds(s: string, left: string, r: string)
    requires left == StripLeft(s) && r == StripRight(left)
    ensures Trimmed(r)
    ensures forall c :: c in r ==> c in s
    ensures NoDoubleUnderscore(s) ==> NoDoubleUnderscore(r)
    ensures Trimmed(s) ==> r == s
    ensures (forall c :: c in s ==> StripChar(c)) ==> r == []
  {
    StripSlice(s, left, r);
    if r != [] {
      assert r[0] == left[0];
    }
    StripNothing(s, left, r);
    StripAll(s, left, r);
  }

  lemma StripBounds(s: string, left: string, r: string)
    requires |left| <= |s| && left == s[|s| - |left|..]
    requires forall k :: 0 <= k < |s| - |left| ==> StripChar(s[k])
    requires |r| <= |left| && r == left[..|r|]
    requires forall k :: |r| <= k < |left| ==> StripChar(left[k])
    ensures exists i :: StrippedSlice(s, i, r)
  {
    var i := |s| - |left|;
    assert r == s[i..i + |r|];
    forall k | i + |r| <= k < |s| ensures StripChar(s[k]) {
      assert s[k] == left[k - i];
    }
    assert StrippedSlice(s, i, r);
  }

  lemma StripSlice(s: string, left: string, r: string)
    requires |left| <= |s| && left == s[|s| - |left|..]
    requires |r| <= |left| && r == left[..|r|]
    ensures forall c :: c in r ==> c in s
    ensures NoDoubleUnderscore(s) ==> NoDoubleUnderscore(r)
  {
    SliceProperties(s, |s| - |left|, |s|, left);
    SliceProperties(left, 0, |r|, r);
  }

  lemma StripNothing(s: string, left: string, r: string)
    requires left == StripLeft(s) && r == StripRight(left)
    ensures Trimmed(s) ==> r == s
  {
    if s == [] {
      assert left == [];
    } else if Trimmed(s) {
      StripClean(s, left, r);
    }
  }

  lemma StripClean(s: string, left: string, r: string)
    requires left == StripLeft(s) && r == StripRight(left)
    requires s != [] && !StripChar(s[0]) && !StripChar(s[|s| - 1])
    ensures r == s
  {
    assert StripLeft(s) == s;
    assert StripRight(s) == s;
  }

  lemma StripAll(s: string, left: string, r: string)
    requires left == StripLeft(s) && r == StripRight(left)
    ensures (forall c :: c in s ==> StripChar(c)) ==> r == []
  {
    if left != [] {
      assert left[0] == s[|s| - |left|];
    }
  }

  lemma SliceProperties(s: string, i: int, j: int, r: string)
    requires 0 <= i <= j <= |s| && r == s[i..j]
    ensures forall c :: c in r ==> c in s
    ensures NoDoubleUnderscore(s) ==> NoDoubleUnderscore(r)
    ensures i == 0 && j == |s| ==> r == s
  {
    forall c | c in r ensures c in s {
      var k :| 0 <= k < |r| && r[k] == c;
      assert s[i + k] == c;
    }
    if NoDoubleUnderscore(s) {
      forall k | 0 <= k < |r| - 1 ensures !(r[k] == '_' && r[k + 1] == '_') {
        assert r[k] == s[i + k] && r[k + 1] == s[i + k + 1];
      }
    }
  }

  // ---------------------------------------------------------------------
  // sanitize_filename
  // ---------------------------------------------------------------------

  const DefaultName: string := "downloaded_file.html"

  /**
   * `sanitize_filename(filename)`: the default name for an empty input,
   * otherwise the four rewriting steps in order.
   */
  function SanitizeFilename(filename: string, w: WordClass): (name: string)
    ensures filename == [] ==> name == DefaultName
    ensures forall c :: c in name ==> w(c) || c == '.' || c == '-'
    ensures '%' !in name && ' ' !in name
    ensures NoDoubleUnderscore(name)
    ensures Trimmed(name)
  {
    if filename == [] then
      DefaultNameIsClean(w);
      DefaultName
    else
      var decoded := Unquote(filename);
      var replaced := ReplaceInvalid(decoded, w);
      var collapsed := Collapse(replaced);
      var name := Strip(collapsed);
      WordClassOnAscii(w);
      name
  }

  /** A name the cleaner leaves as it is. */
  predicate Clean(s: string, w: WordClass)
  {
    && (forall c :: c in s ==> w(c) || c == '.' || c == '-')
    && NoDoubleUnderscore(s)
    && Trimmed(s)
  }

  lemma DefaultNameIsClean(w: WordClass)
    ensures Clean(DefaultName, w)
  {
    var front, back := "downloaded", "file.html";
    assert DefaultName == front + ['_'] + back;
    assert forall c :: c in front ==> AsciiWord(c);
    assert forall c :: c in back ==> AsciiWord(c) || c == '.';
    assert '_' !in front && '_' !in back;
    JoinedClean(front, back, w);
  }

  /** Two underscore-free words joined by one underscore are clean. */
  lemma JoinedClean(front: string, back: string, w: WordClass)
    requires forall c :: c in front ==> AsciiWord(c)
    requires forall c :: c in back ==> AsciiWord(c) || c == '.'
    requires '_' !in front && '_' !in back
    requires front != [] && back != [] && back[|back| - 1] != '.'
    ensures Clean(front + ['_'] + back, w)
  {
    var d := front + ['_'] + back;
    forall k | 0 <= k < |d| ensures AsciiWord(d[k]) || d[k] == '.' {
      if k < |front| {
        assert d[k] == front[k] && front[k] in front;
      } else if k > |front| {
        assert d[k] == back[k - |front| - 1] && back[k - |front| - 1] in back;
      }
    }
    forall k | 0 <= k < |d| - 1 ensures !(d[k] == '_' && d[k + 1] == '_') {
      if k < |front| {
        assert d[k] == front[k] && front[k] in front;
      } else {
        assert d[k + 1] == back[k - |front|] && back[k - |front|] in back;
      }
    }
    forall c | c in d ensures w(c) || c == '.' || c == '-' {
      var k :| 0 <= k < |d| && d[k] == c;
    }
    assert d[0] == front[0] && front[0] in front;
    assert d[|d| - 1] == back[|back| - 1] && back[|back| - 1] in back;
  }

  /**
   * The cleaner's fixed points are exactly the clean names: word
   * characters, dots and hyphens, no `__`, and no `.` or `_` at either end.
   */
  lemma SanitizeFixedPoints(s: string, w: WordClass)
    requires s != []
    ensures SanitizeFilename(s, w) == s <==> Clean(s, w)
  {
    if Clean(s, w) {
      assert !w('%') && w('_');
      assert '%' !in s;
      assert forall c :: c in s ==> Allowed(w, c);
    }
  }

  /**
   * Cleaning twice is cleaning once, except that a non-empty name cleaned
   * down to nothing is replaced by the default name on the second pass.
   */
  lemma SanitizeIdempotent(s: string, w: WordClass)
    ensures var once := SanitizeFilename(s, w);
            SanitizeFilename(once, w) == if once == [] then DefaultName else once
  {
    var once := SanitizeFilename(s, w);
    if once != [] {
      SanitizeFixedPoints(once, w);
    }
  }

  /**
   * A non-empty name whose decoded characters all turn into `_` or are
   * stripped comes out empty: the default name is not used as a fallback.
   */
  lemma AllReplacedIsEmpty(s: string, w: WordClass)
    requires s != []
    requires forall c :: c in Unquote(s) ==> StripChar(c) || !Allowed(w, c)
    ensures SanitizeFilename(s, w) == []
  {
    var replaced := ReplaceInvalid(Unquote(s), w);
    assert forall c :: c in replaced ==> StripChar(c);
    var collapsed := Collapse(replaced);
    assert forall c :: c in collapsed ==> StripChar(c);
  }

  /** An encoded space, `"%20"`, cleans down to the empty name. */
  lemma EncodedSpaceIsEmpty(w: WordClass)
    ensures SanitizeFilename("%20", w) == []
  {
    var e := "%20";
    assert AsciiEscapeAt(e);
    assert e[3..] == [];
    assert Unquote(e) == [' '];
    AllReplacedIsEmpty(e, w);
  }

  /** A name made of underscores only is cleaned to the empty string. */
  lemma UnderscoresAreEmpty(w: WordClass)
    ensures SanitizeFilename("__", w) == []
  {
    assert Unquote("__") == "__";
    AllReplacedIsEmpty("__", w);
  }

  // ---------------------------------------------------------------------
  // Which links are downloaded
  // ---------------------------------------------------------------------

  /** The texts of the column headers and parent link of an Apache listing. */
  const IgnoredTexts: seq<string> :=
    ["Name", "Last modified", "Size", "Description", "Parent Directory", "Parent directory"]

  /** The column-sorting query strings of an Apache listing. */
  const SortPatterns: seq<string> := ["?C=N", "?C=M", "?C=S", "?C=D"]

  /** Why a link is skipped, or that it passes every skip guard. */
  datatype Verdict =
    | PassesGuards
    | NoHref
    | IgnoredText
    | SortLink
    | Anchor
    | Javascript
    | WrongExtension

  /** The last `.`-separated piece of the lower-cased reference. */
  function Extension(href: string): (e: string)
    ensures '.' !in e
    ensures forall k :: 0 <= k < |e| ==> !IsAsciiUpper(e[k])
    ensures |e| <= |href| && forall k :: 0 <= k < |e| ==> e[k] == LowerChar(href[|href| - |e| + k])
    ensures |e| < |href| ==> href[|href| - |e| - 1] == '.'
  {
    var lower := Lower(href);
    var e := LastPiece(lower, '.');
    assert forall k :: 0 <= k < |e| ==> e[k] == lower[|lower| - |e| + k];
    e
  }

  /**
   * The skip guards of the download loop, in the order the source tests
   * them; the first that fails decides the verdict. A missing `href`
   * attribute is `None`. A link that passes them all is then resolved
   * against the page and still needs an http or https scheme, which is not
   * part of this model.
   */
  function ClassifyLink(href: Option<string>, text: string, extensions: set<string>): (v: Verdict)
    ensures v == PassesGuards <==> Wanted(href, text, extensions)
  {
    if href.None? || href.value == [] then NoHref
    else
      SortGuard(href.value);
      if text in IgnoredTexts then IgnoredText
      else if exists k :: 0 <= k < |SortPatterns| && SortPatterns[k] <= href.value then SortLink
      else if "#" <= href.value then Anchor
      else if "javascript:" <= Lower(href.value) then Javascript
      else if Extension(href.value) !in extensions then WrongExtension
      else PassesGuards
  }

  /** The skip guards stated as one conjunction of independent requirements. */
  predicate Wanted(href: Option<string>, text: string, extensions: set<string>)
  {
    && href.Some?
    && href.value != []
    && text !in IgnoredTexts
    && !("?C=N" <= href.value) && !("?C=M" <= href.value)
    && !("?C=S" <= href.value) && !("?C=D" <= href.value)
    && !("#" <= href.value)
    && !("javascript:" <= Lower(href.value))
    && Extension(href.value) in extensions
  }

  /** The sort guard as one test per query string. */
  lemma SortGuard(h: string)
    ensures (exists k :: 0 <= k < |SortPatterns| && SortPatterns[k] <= h) <==>
            ("?C=N" <= h || "?C=M" <= h || "?C=S" <= h || "?C=D" <= h)
  {
    if exists k :: 0 <= k < |SortPatterns| && SortPatterns[k] <= h {
      var k :| 0 <= k < |SortPatterns| && SortPatterns[k] <= h;
      assert k == 0 || k == 1 || k == 2 || k == 3;
    } else {
      assert !(SortPatterns[0] <= h) && !(SortPatterns[1] <= h);
      assert !(SortPatterns[2] <= h) && !(SortPatterns[3] <= h);
    }
  }

  /**
   * Only the reference is lower-cased, not the extension list: an entry with
   * an upper-case ASCII letter, such as `PDF`, never lets a link through.
   */
  lemma UpperCaseExtensionInert(href: Option<string>, text: string, extensions: set<string>, e: string, k: int)
    requires 0 <= k < |e| && IsAsciiUpper(e[k])
    ensures ClassifyLink(href, text, extensions) == ClassifyLink(href, text, extensions - {e})
  {
    if href.Some? && href.value != [] {
      assert Extension(href.value) != e;
    }
  }

  // ---------------------------------------------------------------------
  // A free name in the output directory
  // ---------------------------------------------------------------------

  /** The last index of `c` in `s`, or -1: Python's `s.rfind(c)`. */
  function LastIndex(s: string, c: char): (i: int)
    ensures -1 <= i < |s|
    ensures i >= 0 ==> s[i] == c
    ensures forall k :: i < k < |s| ==> s[k] != c
    decreases |s|
  {
    if s == [] then -1
    else if s[|s| - 1] == c then |s| - 1
    else LastIndex(s[..|s| - 1], c)
  }

  /**
   * `os.path.splitext` on POSIX: the extension starts at the last `.` of the
   * last path component, provided a character other than `.` comes before
   * it in that component; otherwise it is empty.
   */
  function SplitExt(p: string): (parts: (string, string))
    ensures parts.0 + parts.1 == p
    ensures parts.1 != [] ==> parts.1[0] == '.' && '.' !in parts.1[1..] && '/' !in parts.1
    ensures parts.1 != [] ==> exists k :: LastIndex(p, '/') < k < |parts.0| && p[k] != '.'
    ensures '.' !in p ==> parts.1 == []
    ensures (exists k, d :: LastIndex(p, '/') < k < d < |p| && p[d] == '.' && p[k] != '.') ==> parts.1 != []
  {
    var sepIndex := LastIndex(p, '/');
    var dotIndex := LastIndex(p, '.');
    if dotIndex > sepIndex && exists k :: sepIndex < k < dotIndex && p[k] != '.' then
      ExtensionAt(p, sepIndex, dotIndex);
      (p[..dotIndex], p[dotIndex..])
    else
      NoExtension(p, sepIndex, dotIndex);
      (p, [])
  }

  /** The extension starts at the last dot, after the last slash and a character other than a dot. */
  lemma ExtensionAt(p: string, sepIndex: int, dotIndex: int)
    requires -1 <= sepIndex < dotIndex < |p| && p[dotIndex] == '.'
    requires forall k :: sepIndex < k < |p| ==> p[k] != '/'
    requires forall k :: dotIndex < k < |p| ==> p[k] != '.'
    requires exists k :: sepIndex < k < dotIndex && p[k] != '.'
    ensures var ext := p[dotIndex..];
            && p[..dotIndex] + ext == p
            && ext[0] == '.' && '.' !in ext[1..] && '/' !in ext
            && exists k :: sepIndex < k < |p[..dotIndex]| && p[k] != '.'
  {
    var ext := p[dotIndex..];
    assert p[..dotIndex] + ext == p;
    assert forall j :: 0 <= j < |ext| - 1 ==> ext[1..][j] == p[dotIndex + 1 + j];
    assert forall j :: 0 <= j < |ext| ==> ext[j] == p[dotIndex + j];
  }

  /** Without a dot after a character other than a dot in the last component, there is no extension. */
  lemma NoExtension(p: string, sepIndex: int, dotIndex: int)
    requires -1 <= sepIndex && -1 <= dotIndex < |p| && (dotIndex >= 0 ==> p[dotIndex] == '.')
    requires forall k :: dotIndex < k < |p| ==> p[k] != '.'
    requires !(dotIndex > sepIndex && exists k :: sepIndex < k < dotIndex && p[k] != '.')
    ensures !exists k, d :: sepIndex < k < d < |p| && p[d] == '.' && p[k] != '.'
  {
  }

  /** The `counter`-th alternative name: `f"{base}_{counter}{ext}"`. */
  function Numbered(base: string, ext: string, counter: nat): (name: string)
    ensures |name| > |base| + 1 + |ext|
    ensures name[..|base|] == base && name[|base|] == '_' && name[|name| - |ext|..] == ext
    ensures var digits := name[|base| + 1..|name| - |ext|];
      (forall k :: 0 <= k < |digits| ==> IsDigit(digits[k])) && ParseDecimal(digits) == counter
  {
    var digits := Decimal(counter);
    var name := base + "_" + digits + ext;
    assert name[|base| + 1..|name| - |ext|] == digits;
    ParseDecimalOfDecimal(counter);
    name
  }

  /** Different counters give different names. */
  lemma NumberedInjective(base: string, ext: string, j: nat, k: nat)
    requires Numbered(base, ext, j) == Numbered(base, ext, k)
    ensures j == k
  {
    var a, b := Numbered(base, ext, j), Numbered(base, ext, k);
    var start := |base| + 1;
    assert |Decimal(j)| == |Decimal(k)|;
    assert a[start..start + |Decimal(j)|] == Decimal(j);
    assert b[start..start + |Decimal(k)|] == Decimal(k);
    DecimalInjective(j, k);
  }

  /**
   * `os.path.exists(os.path.join(output_dir, name))` for the names already
   * present. The empty name joins to the output directory itself, which
   * exists.
   */
  predicate Taken(existing: set<string>, name: string)
  {
    name == [] || name in existing
  }

  /** Every alternative name for the counters 1 to `n` is taken. */
  predicate TakenUpTo(existing: set<string>, base: string, ext: string, n: int)
  {
    forall j :: 1 <= j <= n ==> Taken(existing, Numbered(base, ext, j))
  }

  lemma TakenUpToStep(existing: set<string>, base: string, ext: string, n: nat)
    requires n >= 1 && TakenUpTo(existing, base, ext, n - 1) && Taken(existing, Numbered(base, ext, n))
    ensures TakenUpTo(existing, base, ext, n)
  {
  }

  /** The alternative names for the counters 1 to `n`. */
  ghost function NumberedUpTo(base: string, ext: string, n: nat): set<string>
  {
    if n == 0 then {} else NumberedUpTo(base, ext, n - 1) + {Numbered(base, ext, n)}
  }

  lemma {:induction false} NumberedUpToTaken(base: string, ext: string, n: nat, existing: set<string>)
    requires TakenUpTo(existing, base, ext, n)
    ensures NumberedUpTo(base, ext, n) <= existing
  {
    if n > 0 {
      NumberedUpToTaken(base, ext, n - 1, existing);
    }
  }

  lemma {:induction false} NotYetNumbered(base: string, ext: string, n: nat, m: nat)
    requires n < m
    ensures Numbered(base, ext, m) !in NumberedUpTo(base, ext, n)
  {
    if n > 0 {
      NotYetNumbered(base, ext, n - 1, m);
      if Numbered(base, ext, m) == Numbered(base, ext, n) {
        NumberedInjective(base, ext, m, n);
      }
    }
  }

  /** The termination measure of the naming loop. */
  ghost function Untried(existing: set<string>, base: string, ext: string, counter: nat): nat
    requires counter >= 1
  {
    if counter == 1 then |existing| + 1 else |existing - NumberedUpTo(base, ext, counter - 2)|
  }

  /** Each taken candidate leaves one name fewer to try. */
  lemma UntriedShrinks(existing: set<string>, base: string, ext: string, counter: nat, name: string)
    requires counter >= 1 && Taken(existing, name)
    requires counter > 1 ==> name == Numbered(base, ext, counter - 1)
    requires TakenUpTo(existing, base, ext, counter - 2)
    ensures Untried(existing, base, ext, counter + 1) < Untried(existing, base, ext, counter)
  {
    if counter > 1 {
      var tried := NumberedUpTo(base, ext, counter - 2);
      NumberedUpToTaken(base, ext, counter - 2, existing);
      NotYetNumbered(base, ext, counter - 2, counter - 1);
      assert name in existing - tried;
      assert existing - (tried + {name}) == (existing - tried) - {name};
    }
  }

  /**
   * The collision loop: the cleaned name when it is free, otherwise
   * `base_k.ext` for the least counter `k` from 1 whose name is free.
   */
  method ChooseOutputName(sanitized: string, existing: set<string>) returns (name: string)
    ensures !Taken(existing, name)
    ensures !Taken(existing, sanitized) ==> name == sanitized
    ensures Taken(existing, sanitized) ==>
              exists k :: 1 <= k && name == Numbered(SplitExt(sanitized).0, SplitExt(sanitized).1, k) &&
                TakenUpTo(existing, SplitExt(sanitized).0, SplitExt(sanitized).1, k - 1)
  {
    name := sanitized;
    var counter := 1;
    var base, ext := SplitExt(sanitized).0, SplitExt(sanitized).1;
    while Taken(existing, name)
      invariant counter >= 1
      invariant counter == 1 ==> name == sanitized
      invariant counter > 1 ==> Taken(existing, sanitized) && name == Numbered(base, ext, counter - 1)
      invariant TakenUpTo(existing, base, ext, counter - 2)
      decreases Untried(existing, base, ext, counter)
    {
      UntriedShrinks(existing, base, ext, counter, name);
      if counter > 1 {
        TakenUpToStep(existing, base, ext, counter - 1);
      }
      name := Numbered(base, ext, counter);
      counter := counter + 1;
    }
  }
}
