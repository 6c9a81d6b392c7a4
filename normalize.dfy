/**
 * `clean_data`: clean the name column, lowercase the two free-text columns,
 * then drop every record whose cleaned name already occurred earlier.
 *
 * Line 63 removes characters with the pattern `[^a-zA-Z0-9\s]` read as a
 * regular expression (the behaviour of pandas' `str.replace` before pandas
 * 2.0, where `regex=True` was the default).
 */
module Normalize {
  import opened Text
  import opened Dedup
  import opened Extraction

  /** A character the pattern `[^a-zA-Z0-9\s]` does not match, so one that survives. */
  predicate IsNameChar(c: char) {
    IsAsciiLetter(c) || IsAsciiDigit(c) || IsSpace(c)
  }

  predicate AllNameChars(s: string) {
    forall i :: 0 <= i < |s| ==> IsNameChar(s[i])
  }

  /** A name as cleaning leaves it: only letters, digits and whitespace, trimmed. */
  predicate IsCleanName(s: string) {
    AllNameChars(s) && IsTrimmed(s)
  }

  /** A record as cleaning leaves it. */
  predicate IsCleanRecord(r: DrugRecord) {
    IsCleanName(r.name) && IsLower(r.uses) && IsLower(r.sideEffects)
  }

  /** `re.sub('[^a-zA-Z0-9\s]', '', s)`: the surviving characters, in order. */
  function RemoveDisallowed(s: string): (r: string)
    ensures AllNameChars(r)
    ensures |r| <= |s|
    ensures AllNameChars(s) ==> r == s
  {
    if s == [] then []
    else (if IsNameChar(s[0]) then [s[0]] else []) + RemoveDisallowed(s[1..])
  }

  /** Removal works character by character: it distributes over concatenation. */
  lemma {:induction false} RemoveDisallowedAppend(a: string, b: string)
    ensures RemoveDisallowed(a + b) == RemoveDisallowed(a) + RemoveDisallowed(b)
  {
    if a == [] {
      assert a + b == b;
    } else {
      assert (a + b)[0] == a[0];
      assert (a + b)[1..] == a[1..] + b;
      RemoveDisallowedAppend(a[1..], b);
      var head := if IsNameChar(a[0]) then [a[0]] else [];
      calc {
        RemoveDisallowed(a + b);
        head + RemoveDisallowed(a[1..] + b);
        head + (RemoveDisallowed(a[1..]) + RemoveDisallowed(b));
        (head + RemoveDisallowed(a[1..])) + RemoveDisallowed(b);
      }
    }
  }

  /**
   * Removal keeps every occurrence of a letter, digit or whitespace character
   * and no occurrence of any other character.
   */
  lemma {:induction false} RemoveDisallowedCount(s: string)
    ensures forall c :: multiset(RemoveDisallowed(s))[c] == if IsNameChar(c) then multiset(s)[c] else 0
  {
    if s != [] {
      RemoveDisallowedCount(s[1..]);
      assert s == [s[0]] + s[1..];
    }
  }

  /** On one character, removal keeps it exactly when the pattern does not match it. */
  lemma RemoveDisallowedChar(c: char)
    ensures RemoveDisallowed([c]) == if IsNameChar(c) then [c] else []
  {
    assert [c][1..] == [];
  }

  /** Stripping only removes characters, so it keeps a name-only string name-only. */
  lemma StripKeepsNameChars(s: string)
    requires AllNameChars(s)
    ensures AllNameChars(Strip(s))
  {
    var t := TrimStart(s);
    TrimStartSpec(s);
    forall i | 0 <= i < |t|
      ensures IsNameChar(t[i])
    {
      assert t[i] == s[|s| - |t| + i];
    }
    var u := TrimEnd(t);
    TrimEndSpec(t);
    forall i | 0 <= i < |u|
      ensures IsNameChar(u[i])
    {
      assert u[i] == t[i];
    }
    assert Strip(s) == u;
  }

  /** Line 63 on one name: remove the disallowed characters, then strip. */
  function CleanName(s: string): (r: string)
    ensures IsCleanName(r)
    ensures |r| <= |s|
  {
    StripKeepsNameChars(RemoveDisallowed(s));
    StripSpec(RemoveDisallowed(s));
    Strip(RemoveDisallowed(s))
  }

  /** A clean name is left as it is; so cleaning a name twice is cleaning it once. */
  lemma CleanNameFixesClean(s: string)
    requires IsCleanName(s)
    ensures CleanName(s) == s
  {
    StripTrimmed(s);
  }

  lemma CleanNameIdempotent(s: string)
    ensures CleanName(CleanName(s)) == CleanName(s)
  {
    CleanNameFixesClean(CleanName(s));
  }

  /** Lines 63-65 on one record. */
  function CleanRecord(r: DrugRecord): (c: DrugRecord)
    ensures IsCleanRecord(c)
  {
    LowerIsLower(r.uses);
    LowerIsLower(r.sideEffects);
    DrugRecord(CleanName(r.name), Lower(r.uses), Lower(r.sideEffects))
  }

  /** A clean record is left as it is. */
  lemma CleanRecordFixesClean(r: DrugRecord)
    requires IsCleanRecord(r)
    ensures CleanRecord(r) == r
  {
    CleanNameFixesClean(r.name);
    LowerFixesLower(r.uses);
    LowerFixesLower(r.sideEffects);
  }

  /** The table after the three column assignments of lines 63-65. */
  function CleanColumns(rows: seq<DrugRecord>): (c: seq<DrugRecord>)
    ensures |c| == |rows|
    ensures forall i :: 0 <= i < |rows| ==> c[i] == CleanRecord(rows[i])
  {
    seq(|rows|, i requires 0 <= i < |rows| => CleanRecord(rows[i]))
  }

  function NameOf(r: DrugRecord): string { r.name }

  /** `drop_duplicates(subset=['Drug Name'])`, keeping the first record of each name. */
  function DropDuplicates(rows: seq<DrugRecord>): seq<DrugRecord> {
    KeepFirst(rows, NameOf)
  }

  /** The table `clean_data` returns for a raw table. */
  function Normalized(rows: seq<DrugRecord>): seq<DrugRecord> {
    DropDuplicates(CleanColumns(rows))
  }

  /**
   * `clean_data`: the three column assignments update the table in place,
   * then a new deduplicated table is returned.
   */
  method CleanData(df: array<DrugRecord>) returns (table: seq<DrugRecord>)
    modifies df
    ensures df[..] == CleanColumns(old(df[..]))
    ensures table == Normalized(old(df[..]))
  {
    forall i | 0 <= i < df.Length {
      df[i] := df[i].(name := CleanName(df[i].name));
    }
    forall i | 0 <= i < df.Length {
      df[i] := df[i].(uses := Lower(df[i].uses));
    }
    forall i | 0 <= i < df.Length {
      df[i] := df[i].(sideEffects := Lower(df[i].sideEffects));
    }
    table := DropDuplicates(df[..]);
  }

  /**
   * Deduplication by name: every kept record is the first input record with
   * its name, every input name is kept, kept records are in the order of
   * their names' first occurrences, and no two share a name.
   */
  lemma DropDuplicatesSpec(rows: seq<DrugRecord>)
    ensures forall k :: 0 <= k < |DropDuplicates(rows)| ==>
              DropDuplicates(rows)[k].name in Keys(rows, NameOf) &&
              DropDuplicates(rows)[k] == rows[FirstIndex(rows, NameOf, DropDuplicates(rows)[k].name)]
    ensures forall i :: 0 <= i < |rows| ==> rows[i].name in Keys(DropDuplicates(rows), NameOf)
    ensures forall a, b :: 0 <= a < b < |DropDuplicates(rows)| ==>
              DropDuplicates(rows)[a].name in Keys(rows, NameOf) &&
              DropDuplicates(rows)[b].name in Keys(rows, NameOf) &&
              FirstIndex(rows, NameOf, DropDuplicates(rows)[a].name)
                < FirstIndex(rows, NameOf, DropDuplicates(rows)[b].name)
    ensures forall a, b :: 0 <= a < b < |DropDuplicates(rows)| ==>
              DropDuplicates(rows)[a].name != DropDuplicates(rows)[b].name
  {
    KeepFirstSpec(rows, NameOf);
  }

  /**
   * After cleaning, every record is clean and no two records share a name.
   */
  lemma NormalizedSpec(rows: seq<DrugRecord>)
    ensures forall k :: 0 <= k < |Normalized(rows)| ==> IsCleanRecord(Normalized(rows)[k])
    ensures forall a, b :: 0 <= a < b < |Normalized(rows)| ==>
              Normalized(rows)[a].name != Normalized(rows)[b].name
    ensures |Normalized(rows)| <= |rows|
  {
    var c := CleanColumns(rows);
    DropDuplicatesSpec(c);
    KeepFirstElements(c, NameOf);
    forall k | 0 <= k < |Normalized(rows)|
      ensures IsCleanRecord(Normalized(rows)[k])
    {
      var j :| 0 <= j < |c| && c[j] == Normalized(rows)[k];
    }
  }

  /** A clean table is left unchanged by the column assignments. */
  lemma CleanColumnsFixesClean(rows: seq<DrugRecord>)
    requires forall k :: 0 <= k < |rows| ==> IsCleanRecord(rows[k])
    ensures CleanColumns(rows) == rows
  {
    forall k | 0 <= k < |rows|
      ensures CleanColumns(rows)[k] == rows[k]
    {
      CleanRecordFixesClean(rows[k]);
    }
  }

  /** Cleaning is idempotent: cleaning a cleaned table changes nothing. */
  lemma NormalizedIdempotent(rows: seq<DrugRecord>)
    ensures Normalized(Normalized(rows)) == Normalized(rows)
  {
    var t := Normalized(rows);
    NormalizedSpec(rows);
    CleanColumnsFixesClean(t);
    KeepFirstDistinct(t, NameOf);
  }

  /** The distinct names of a table (pandas' `nunique` counts them). */
  function NameSet(rows: seq<DrugRecord>): set<string> {
    set k | 0 <= k < |rows| :: rows[k].name
  }

  /** A table without repeated names has as many distinct names as rows. */
  lemma {:induction false} NameSetDistinct(rows: seq<DrugRecord>)
    requires forall a, b :: 0 <= a < b < |rows| ==> rows[a].name != rows[b].name
    ensures |NameSet(rows)| == |rows|
    decreases |rows|
  {
    if rows != [] {
      var init := rows[..|rows| - 1];
      NameSetDistinct(init);
      assert NameSet(rows) == NameSet(init) + {rows[|rows| - 1].name};
      assert rows[|rows| - 1].name !in NameSet(init);
    }
  }

  /** After cleaning, the number of distinct names equals the number of records. */
  lemma NormalizedUniqueCount(rows: seq<DrugRecord>)
    ensures |NameSet(Normalized(rows))| == |Normalized(rows)|
  {
    NormalizedSpec(rows);
    NameSetDistinct(Normalized(rows));
  }
}
