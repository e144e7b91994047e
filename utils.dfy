/**
 * src/utils.ts: the row filter predicate and the e-mail check used by the
 * cell editor classifier.
 */
module Utils {
  import opened JsValues
  import opened OrderedMaps

  /** A loaded (or edited) record: field name to value, in field order. */
  type Record = Entries<Value>

  /** The filter object: field name to filter text; `None` is `null` or `undefined`. */
  type FilterSpec = Entries<Option<string>>

  /** The value of field `k` of a record; a missing field reads as `undefined` (src/utils.ts:35). */
  function Field(r: Record, k: string): Value {
    match Lookup(r, k)
    case Some(v) => v
    case None => Absent
  }

  /** A filter text that constrains the rows: neither '', `null` nor `undefined`. */
  predicate IsActive(t: Option<string>) {
    t.Some? && t.value != ""
  }

  /** The lower-cased text form of field `k` contains the lower-cased `t` (src/utils.ts:35). */
  predicate FieldMatches(obj: Record, k: string, t: string) {
    Contains(Lower(ToString(Field(obj, k))), Lower(t))
  }

  /** Whether some entry of the filter is active (src/utils.ts:24). */
  predicate SomeActive(filters: FilterSpec) {
    filters != [] && (IsActive(filters[0].1) || SomeActive(filters[1..]))
  }

  /** One entry lets a record through: it is inactive, or the record's field matches its text (src/utils.ts:31-35). */
  predicate EntryAccepts(obj: Record, e: (string, Option<string>)) {
    !IsActive(e.1) || FieldMatches(obj, e.0, e.1.value)
  }

  /** Every entry of the filter lets the record through (src/utils.ts:30-36). */
  predicate EveryAccepts(filters: FilterSpec, obj: Record) {
    filters == [] || (EntryAccepts(obj, filters[0]) && EveryAccepts(filters[1..], obj))
  }

  /** `filterRowItem`: a filter object without entries and without active entries accepts outright, otherwise every entry must accept (src/utils.ts:21-37). */
  predicate FilterRowItem(filter: FilterSpec, obj: Record) {
    var isFilterEmpty := !SomeActive(filter);
    if |filter| == 0 && isFilterEmpty then true
    else EveryAccepts(filter, obj)
  }

  /**
   * A record passes exactly when, for every active entry `(k, t)` of the
   * filter, the lower-cased string form of its field `k` contains the
   * lower-cased `t`.
   */
  lemma {:induction false} FilterRowItemMeaning(filter: FilterSpec, obj: Record)
    ensures FilterRowItem(filter, obj) <==>
      forall i :: 0 <= i < |filter| && IsActive(filter[i].1) ==> FieldMatches(obj, filter[i].0, filter[i].1.value)
  {
    EveryAcceptsMeaning(filter, obj);
  }

  lemma {:induction false} EveryAcceptsMeaning(filter: FilterSpec, obj: Record)
    ensures EveryAccepts(filter, obj) <==> forall i :: 0 <= i < |filter| ==> EntryAccepts(obj, filter[i])
  {
    if filter != [] {
      EveryAcceptsMeaning(filter[1..], obj);
      assert forall i :: 1 <= i < |filter| ==> filter[i] == filter[1..][i - 1];
    }
  }

  /** A filter with no entries accepts every record. */
  lemma EmptyFilterAcceptsAll(obj: Record)
    ensures FilterRowItem([], obj)
  {
  }

  /** Entries whose text is '', `null` or `undefined` impose nothing: such a filter accepts every record. */
  lemma InactiveFilterAcceptsAll(filter: FilterSpec, obj: Record)
    requires forall i :: 0 <= i < |filter| ==> !IsActive(filter[i].1)
    ensures FilterRowItem(filter, obj)
  {
    FilterRowItemMeaning(filter, obj);
  }

  /** A field missing from the record is compared as the text "undefined". */
  lemma MissingFieldIsUndefined(obj: Record, k: string, t: string)
    requires Lookup(obj, k).None?
    ensures FilterRowItem([(k, Some(t))], obj) <==> Contains("undefined", Lower(t))
  {
    var f: FilterSpec := [(k, Some(t))];
    assert f[1..] == [];
    assert EveryAccepts(f[1..], obj);
    assert EveryAccepts(f, obj) == EntryAccepts(obj, f[0]);
    assert FilterRowItem(f, obj) == EveryAccepts(f, obj);
    assert Field(obj, k) == Absent;
    LowerOfLowercase("undefined");
    if t == "" {
      LowerEmpty(t);
      ContainsEmpty("undefined");
    }
  }

  /**
   * Adding entries can only reject more: a record accepted by a filter is
   * accepted by every filter whose entries are among that filter's.
   */
  lemma FilterNarrows(smaller: FilterSpec, larger: FilterSpec, obj: Record)
    requires forall e :: e in smaller ==> e in larger
    requires FilterRowItem(larger, obj)
    ensures FilterRowItem(smaller, obj)
  {
    FilterRowItemMeaning(smaller, obj);
    FilterRowItemMeaning(larger, obj);
    forall i | 0 <= i < |smaller| && IsActive(smaller[i].1)
      ensures FieldMatches(obj, smaller[i].0, smaller[i].1.value)
    {
      assert smaller[i] in smaller;
      var j :| 0 <= j < |larger| && larger[j] == smaller[i];
    }
  }

  /** In particular, appending an entry can turn an acceptance into a rejection but never the reverse. */
  lemma AddedEntryNarrows(filter: FilterSpec, k: string, t: Option<string>, obj: Record)
    requires FilterRowItem(filter + [(k, t)], obj)
    ensures FilterRowItem(filter, obj)
  {
    FilterNarrows(filter, filter + [(k, t)], obj);
  }

  /** Two filter texts that differ at most in letter case (and are both missing or both present). */
  predicate SameIgnoringCase(a: Option<string>, b: Option<string>) {
    (a.None? && b.None?) || (a.Some? && b.Some? && Lower(a.value) == Lower(b.value))
  }

  /** Changing the letter case of the filter texts does not change the verdict. */
  lemma FilterTextCaseInsensitive(f: FilterSpec, g: FilterSpec, obj: Record)
    requires |f| == |g|
    requires forall i :: 0 <= i < |f| ==> f[i].0 == g[i].0 && SameIgnoringCase(f[i].1, g[i].1)
    ensures FilterRowItem(f, obj) == FilterRowItem(g, obj)
  {
    FilterRowItemMeaning(f, obj);
    FilterRowItemMeaning(g, obj);
    forall i | 0 <= i < |f|
      ensures IsActive(f[i].1) == IsActive(g[i].1)
    {
      if f[i].1.Some? {
        LowerEmpty(f[i].1.value);
        LowerEmpty(g[i].1.value);
      }
    }
  }

  /** Changing the letter case of the records' field text does not change the verdict. */
  lemma FieldCaseInsensitive(f: FilterSpec, r: Record, r': Record)
    requires forall k :: Lower(ToString(Field(r, k))) == Lower(ToString(Field(r', k)))
    ensures FilterRowItem(f, r) == FilterRowItem(f, r')
  {
    FilterRowItemMeaning(f, r);
    FilterRowItemMeaning(f, r');
  }

  // ---------------------------------------------------------------------
  // validateEmail: the regular expression of src/utils.ts, as a grammar.
  // ---------------------------------------------------------------------

  /** The characters matched by `\s` in a JavaScript regular expression. */
  predicate IsJsWhitespace(c: char) {
    || c == '\t' || c == '\n' || c == '\U{B}' || c == '\U{C}' || c == '\r' || c == ' '
    || c == '\U{A0}' || c == '\U{1680}' || ('\U{2000}' <= c <= '\U{200A}')
    || c == '\U{2028}' || c == '\U{2029}' || c == '\U{202F}' || c == '\U{205F}'
    || c == '\U{3000}' || c == '\U{FEFF}'
  }

  /** The characters matched by `.`: anything but a line terminator. */
  predicate IsNotLineTerminator(c: char) {
    c != '\n' && c != '\r' && c != '\U{2028}' && c != '\U{2029}'
  }

  /** An atom character: anything but <, >, (, ), [, ], \, ., ,, ;, :, @, a double quote or white space (src/utils.ts:7). */
  predicate IsAtomChar(c: char) {
    c !in "<>()[]\\.,;:@\"" && !IsJsWhitespace(c)
  }

  /** Non-empty runs of atom characters joined by single dots (src/utils.ts:7). */
  predicate IsDotAtom(s: string) {
    && s != []
    && s[0] != '.' && s[|s| - 1] != '.'
    && (forall i :: 0 <= i < |s| ==> IsAtomChar(s[i]) || s[i] == '.')
    && (forall i :: 0 <= i < |s| - 1 ==> !(s[i] == '.' && s[i + 1] == '.'))
  }

  /** A quoted local part: at least one character that is not a line terminator, between double quotes (src/utils.ts:7). */
  predicate IsQuoted(s: string) {
    && |s| >= 3 && s[0] == '"' && s[|s| - 1] == '"'
    && forall i :: 1 <= i < |s| - 1 ==> IsNotLineTerminator(s[i])
  }

  /** The pieces joined back together with `sep` between neighbours. */
  function Join(parts: seq<string>, sep: char): string
    requires |parts| > 0
  {
    if |parts| == 1 then parts[0] else parts[0] + [sep] + Join(parts[1..], sep)
  }

  /**
   * The pieces of `s` between occurrences of `sep`: none of them holds
   * `sep`, and joined with `sep` they give `s` back.
   */
  function SplitOn(s: string, sep: char): (parts: seq<string>)
    ensures |parts| > 0
    ensures forall i :: 0 <= i < |parts| ==> sep !in parts[i]
    ensures Join(parts, sep) == s
    decreases |s|
  {
    if s == [] then [""]
    else
      var rest := SplitOn(s[1..], sep);
      if s[0] == sep then
        var parts := [""] + rest;
        assert parts[1..] == rest;
        assert [s[0]] + s[1..] == s;
        parts
      else
        var parts := [[s[0]] + rest[0]] + rest[1..];
        assert forall i :: 1 <= i < |parts| ==> parts[i] == rest[i];
        assert |rest| > 1 ==> parts[1..] == rest[1..];
        assert [s[0]] + s[1..] == s;
        parts
  }

  predicate IsDigit(c: char) { '0' <= c <= '9' }

  predicate IsLetter(c: char) { ('a' <= c <= 'z') || ('A' <= c <= 'Z') }

  /** One to three decimal digits. */
  predicate IsOctetText(s: string) {
    1 <= |s| <= 3 && forall i :: 0 <= i < |s| ==> IsDigit(s[i])
  }

  /** An IP literal: four groups of one to three digits separated by dots, in square brackets (src/utils.ts:7). */
  predicate IsIpLiteral(d: string) {
    && |d| >= 2 && d[0] == '[' && d[|d| - 1] == ']'
    && var parts := SplitOn(d[1..|d| - 1], '.');
      |parts| == 4 && forall i :: 0 <= i < 4 ==> IsOctetText(parts[i])
  }

  /** A host label: one or more ASCII letters, digits or hyphens. */
  predicate IsHostLabel(p: string) {
    p != [] && forall j :: 0 <= j < |p| ==> IsLetter(p[j]) || IsDigit(p[j]) || p[j] == '-'
  }

  /** A top-level label: two or more ASCII letters. */
  predicate IsTopLabel(p: string) {
    |p| >= 2 && forall j :: 0 <= j < |p| ==> IsLetter(p[j])
  }

  /** A host name: one or more host labels, each followed by a dot, then a top-level label (src/utils.ts:7). */
  predicate IsHostName(d: string) {
    var parts := SplitOn(d, '.');
    && |parts| >= 2
    && (forall i :: 0 <= i < |parts| - 1 ==> IsHostLabel(parts[i]))
    && IsTopLabel(parts[|parts| - 1])
  }

  /** The address splits at some `@` into a local part and a domain, as the anchored pattern demands. */
  predicate SplitsAsEmail(s: string, at: int) {
    && 0 <= at < |s| && s[at] == '@'
    && (IsDotAtom(s[..at]) || IsQuoted(s[..at]))
    && (IsIpLiteral(s[at + 1..]) || IsHostName(s[at + 1..]))
  }

  predicate MatchesEmailPattern(s: string) {
    exists at | 0 <= at < |s| :: SplitsAsEmail(s, at)
  }

  /** `validateEmail`: the address pattern is tried on the lower-cased text (src/utils.ts:3-9). */
  predicate ValidateEmail(email: string) {
    MatchesEmailPattern(Lower(email))
  }

  /** The verdict of `validateEmail` does not depend on letter case. */
  lemma ValidateEmailIgnoresCase(a: string, b: string)
    requires Lower(a) == Lower(b)
    ensures ValidateEmail(a) == ValidateEmail(b)
  {
  }

  lemma ValidateEmailOfLower(s: string)
    ensures ValidateEmail(Lower(s)) == ValidateEmail(s)
  {
    LowerIdempotent(s);
  }

  /** Text without the separator is a single piece. */
  lemma {:induction false} SplitOnNoSeparator(s: string, sep: char)
    requires sep !in s
    ensures SplitOn(s, sep) == [s]
    decreases |s|
  {
    if s != [] {
      SplitOnNoSeparator(s[1..], sep);
      assert s == [s[0]] + s[1..];
    }
  }

  /** A character other than the separator that no piece holds does not occur in the split text. */
  lemma {:induction false} SplitOnMissing(s: string, sep: char, c: char)
    requires c != sep
    requires forall i :: 0 <= i < |SplitOn(s, sep)| ==> c !in SplitOn(s, sep)[i]
    ensures c !in s
    decreases |s|
  {
    if s != [] {
      var parts := SplitOn(s, sep);
      var rest := SplitOn(s[1..], sep);
      if s[0] == sep {
        assert forall i :: 0 <= i < |rest| ==> rest[i] == parts[i + 1];
      } else {
        assert parts[0] == [s[0]] + rest[0];
        assert forall i :: 1 <= i < |rest| ==> rest[i] == parts[i];
      }
      SplitOnMissing(s[1..], sep, c);
      assert s == [s[0]] + s[1..];
    }
  }

  /** The domain of an address, an IP literal or a host name, never holds an `@`. */
  lemma DomainHasNoAt(d: string)
    requires IsIpLiteral(d) || IsHostName(d)
    ensures '@' !in d
  {
    if IsIpLiteral(d) {
      var inner := d[1..|d| - 1];
      forall i | 0 <= i < |SplitOn(inner, '.')| ensures '@' !in SplitOn(inner, '.')[i] {
        assert IsOctetText(SplitOn(inner, '.')[i]);
      }
      SplitOnMissing(inner, '.', '@');
      assert d == [d[0]] + inner + [d[|d| - 1]];
    } else {
      var parts := SplitOn(d, '.');
      forall i | 0 <= i < |parts| ensures '@' !in parts[i] {
        if i < |parts| - 1 {
          assert IsHostLabel(parts[i]);
        } else {
          assert IsTopLabel(parts[i]);
        }
      }
      SplitOnMissing(d, '.', '@');
    }
  }

  /**
   * The pattern can split an address only at its last `@` (a quoted local
   * part may hold further `@`s), so the local part and the domain are unique.
   */
  lemma EmailSplitIsUnique(s: string, at: int, at': int)
    requires SplitsAsEmail(s, at) && SplitsAsEmail(s, at')
    ensures at == at'
    ensures forall j :: at < j < |s| ==> s[j] != '@'
  {
    DomainHasNoAt(s[at + 1..]);
    DomainHasNoAt(s[at' + 1..]);
    forall j | at < j < |s| ensures s[j] != '@' {
      assert s[j] == s[at + 1..][j - at - 1];
    }
  }

  /** An address with a one-letter name and a host name with a two-letter top label passes. */
  lemma ShortAddressIsValid()
    ensures ValidateEmail("a@b.io")
  {
    var e := "a@b.io";
    LowerOfLowercase(e);
    ShortHostName();
    ShortLocalPart();
    assert e[..1] == "a" && e[2..] == "b.io";
    assert SplitsAsEmail(e, 1);
    assert MatchesEmailPattern(Lower(e));
  }

  lemma ShortLocalPart()
    ensures IsDotAtom("a")
  {
    assert IsAtomChar('a');
  }

  lemma ShortHostName()
    ensures IsHostName("b.io")
  {
    var d := "b.io";
    SplitOnNoSeparator("io", '.');
    assert ".io"[1..] == "io";
    assert SplitOn(".io", '.') == ["", "io"];
    assert d[1..] == ".io" && d[0] == 'b';
    assert SplitOn(d, '.') == [['b'] + ""] + ["io"];
    assert IsHostLabel("b") && IsTopLabel("io");
  }

  /** A domain without a dot is refused: the host name needs a top-level label. */
  lemma DotlessDomainIsInvalid()
    ensures !ValidateEmail("a@b")
  {
    LowerOfLowercase("a@b");
    forall at | 0 <= at < 3 ensures !SplitsAsEmail("a@b", at) {
      if at == 1 {
        assert "a@b"[2..] == "b";
        SplitOnNoSeparator("b", '.');
      }
    }
  }

  /** Text without an `@` is never an address. */
  lemma NoAtIsInvalid(email: string)
    requires '@' !in email
    ensures !ValidateEmail(email)
  {
    forall at | 0 <= at < |email| ensures Lower(email)[at] != '@' {
      assert email[at] != '@';
    }
  }
}
