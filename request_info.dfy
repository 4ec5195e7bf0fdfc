/**
 * RequestInfo: the serialized description of one request, and the parser that
 * turns its raw header list ("key" or "key,value" strings) into a dictionary,
 * built lazily on first read of the Headers property and cached afterwards.
 */
module Requests {
  import opened Wrappers
  import opened StringSplit

  /** The underlying values of the RequestMethod enum, in declaration order. A C#
      enum field can hold any other int as well. */
  type RequestMethod = int
  const POST: RequestMethod := 0
  const GET: RequestMethod := 1

  /** The serialized header list: a string[] that may be null and whose elements may be null. */
  type RawHeaders = Option<seq<Option<string>>>

  /** A header dictionary as SetHeader returns it: None is a null reference. */
  type HeaderDictionary = Option<map<string, string>>

  /** Why SetHeader throws: a null dereference, or Dictionary.Add given a key it already holds. */
  datatype ParseError = NullReference | DuplicateKey(key: string)

  const Comma: char := ','

  /** Segment 0 of an entry split at every comma. */
  function KeyOf(entry: string): (key: string)
    ensures Comma !in key && key <= entry
    ensures |key| < |entry| ==> entry[|key|] == Comma
  {
    Split(entry, Comma)[0]
  }

  /** Segment 1 of an entry split at every comma, or "" when the entry has no comma. */
  function ValueOf(entry: string): (value: string)
    ensures Comma !in value
    ensures Comma !in entry ==> value == ""
  {
    var parts := Split(entry, Comma);
    if |parts| > 1 then parts[1] else ""
  }

  /** An entry "key,value" whose key and value hold no comma is that key and that value. */
  lemma EntryKeyValue(key: string, value: string)
    requires Comma !in key && Comma !in value
    ensures KeyOf(key + [Comma] + value) == key
    ensures ValueOf(key + [Comma] + value) == value
  {}

  /** Only the text between the first and the second comma is the value: the rest is dropped. */
  lemma EntryExtraSegmentsDropped(key: string, value: string, rest: string)
    requires Comma !in key && Comma !in value
    ensures KeyOf(key + [Comma] + value + [Comma] + rest) == key
    ensures ValueOf(key + [Comma] + value + [Comma] + rest) == value
  {
    assert key + [Comma] + value + [Comma] + rest == key + [Comma] + (value + [Comma] + rest);
    SplitAfterHead(key, Comma, value + [Comma] + rest);
    SplitAfterHead(value, Comma, rest);
  }

  /** An entry with at most one comma is its key alone (with value "") or its key, a comma and its value. */
  lemma EntryRebuilt(entry: string)
    requires Count(entry, Comma) <= 1
    ensures Comma !in entry ==> KeyOf(entry) == entry && ValueOf(entry) == ""
    ensures Comma in entry ==> entry == KeyOf(entry) + [Comma] + ValueOf(entry)
  {
    var parts := Split(entry, Comma);
    SplitLength(entry, Comma);
    JoinSplit(entry, Comma);
    if Comma in entry {
      CountPositive(entry);
      assert |parts| == 2;
      assert Join(parts[1..], Comma) == parts[1];
    }
  }

  /** A string holding a comma counts at least one. */
  lemma CountPositive(s: string)
    requires Comma in s
    ensures Count(s, Comma) >= 1
  {}

  /**
   * The guard `values == null && values.Length <= 0`, evaluated left to right:
   * for a null array the second conjunct reads Length through null and throws;
   * for any other array the first conjunct is false and short-circuits.
   */
  function NullGuard(values: RawHeaders): (r: Result<bool, ParseError>)
    ensures r != Ok(true)
    ensures r.Err? <==> values.None?
  {
    if values == None then Err(NullReference) else Ok(false)
  }

  /** SetHeader's foreach loop continued from a partly built dictionary acc. */
  function AddEntries(acc: map<string, string>, entries: seq<Option<string>>): (r: Result<map<string, string>, ParseError>)
    ensures r.Ok? ==> acc.Keys <= r.value.Keys
    decreases |entries|
  {
    if entries == [] then Ok(acc)
    else
      match entries[0]
      case None => Err(NullReference)
      case Some(entry) =>
        if KeyOf(entry) in acc then Err(DuplicateKey(KeyOf(entry)))
        else AddEntries(acc[KeyOf(entry) := ValueOf(entry)], entries[1..])
  }

  /** What SetHeader returns or throws for a raw header list. It never returns null:
      a null array throws, and an empty array gives an empty dictionary. */
  function Parse(values: RawHeaders): (r: Result<HeaderDictionary, ParseError>)
    ensures r != Ok(None)
    ensures values.None? ==> r == Err(NullReference)
    ensures values == Some([]) ==> r == Ok(Some(map[]))
  {
    match NullGuard(values)
    case Err(e) => Err(e)
    case Ok(returnsNull) =>
      if returnsNull then Ok(None)
      else
        match AddEntries(map[], values.value)
        case Ok(headers) => Ok(Some(headers))
        case Err(e) => Err(e)
  }

  /** Every element of the array is non-null. */
  predicate AllPresent(entries: seq<Option<string>>)
  {
    forall i :: 0 <= i < |entries| ==> entries[i].Some?
  }

  /** No two non-null elements have the same key. */
  predicate DistinctKeys(entries: seq<Option<string>>)
  {
    forall i, j :: 0 <= i < j < |entries| && entries[i].Some? && entries[j].Some? ==>
      KeyOf(entries[i].value) != KeyOf(entries[j].value)
  }

  /** The keys of the non-null elements. */
  function KeySet(entries: seq<Option<string>>): set<string>
  {
    set i | 0 <= i < |entries| && entries[i].Some? :: KeyOf(entries[i].value)
  }

  /** The key the first element contributes, if it is non-null. */
  function HeadKeys(entry: Option<string>): set<string>
  {
    if entry.Some? then {KeyOf(entry.value)} else {}
  }

  /** The keys of a list are those of its first element and of the rest. */
  lemma KeySetCons(entries: seq<Option<string>>)
    requires entries != []
    ensures KeySet(entries) == HeadKeys(entries[0]) + KeySet(entries[1..])
  {}

  /** A list has no null element when its first element and the rest have none. */
  lemma AllPresentCons(entries: seq<Option<string>>)
    requires entries != []
    ensures AllPresent(entries) <==> entries[0].Some? && AllPresent(entries[1..])
  {}

  /** A list's keys are distinct when the rest's are and the first key is not among them. */
  lemma DistinctKeysCons(entries: seq<Option<string>>)
    requires entries != []
    ensures DistinctKeys(entries) <==>
              DistinctKeys(entries[1..]) && HeadKeys(entries[0]) !! KeySet(entries[1..])
  {}

  /** The loop succeeds exactly when no element is null and every key is new. */
  lemma {:induction false} AddEntriesOkIff(acc: map<string, string>, entries: seq<Option<string>>)
    ensures AddEntries(acc, entries).Ok? <==>
              AllPresent(entries) && DistinctKeys(entries) && acc.Keys !! KeySet(entries)
    decreases |entries|
  {
    if entries != [] {
      KeySetCons(entries);
      AllPresentCons(entries);
      DistinctKeysCons(entries);
      if entries[0].Some? {
        var entry := entries[0].value;
        if KeyOf(entry) !in acc {
          AddEntriesOkIff(acc[KeyOf(entry) := ValueOf(entry)], entries[1..]);
        }
      }
    }
  }

  /** A successful loop adds the elements' keys to acc, one new key per element. */
  lemma {:induction false} AddEntriesKeys(acc: map<string, string>, entries: seq<Option<string>>)
    requires AddEntries(acc, entries).Ok?
    ensures AddEntries(acc, entries).value.Keys == acc.Keys + KeySet(entries)
    ensures |AddEntries(acc, entries).value| == |acc| + |entries|
    decreases |entries|
  {
    if entries != [] {
      var entry := entries[0].value;
      var next := acc[KeyOf(entry) := ValueOf(entry)];
      assert AddEntries(acc, entries) == AddEntries(next, entries[1..]);
      KeySetCons(entries);
      AddEntriesKeys(next, entries[1..]);
    }
  }

  /** A successful loop keeps every entry acc already had. */
  lemma {:induction false} AddEntriesKeepsAcc(acc: map<string, string>, entries: seq<Option<string>>)
    requires AddEntries(acc, entries).Ok?
    ensures forall k :: k in acc ==> k in AddEntries(acc, entries).value && AddEntries(acc, entries).value[k] == acc[k]
    decreases |entries|
  {
    if entries != [] {
      var entry := entries[0].value;
      var next := acc[KeyOf(entry) := ValueOf(entry)];
      assert AddEntries(acc, entries) == AddEntries(next, entries[1..]);
      AddEntriesKeepsAcc(next, entries[1..]);
    }
  }

  /** After a successful loop each element's key maps to that element's value. */
  lemma {:induction false} AddEntriesValues(acc: map<string, string>, entries: seq<Option<string>>)
    requires AddEntries(acc, entries).Ok?
    ensures forall i :: 0 <= i < |entries| && entries[i].Some? ==>
              KeyOf(entries[i].value) in AddEntries(acc, entries).value &&
              AddEntries(acc, entries).value[KeyOf(entries[i].value)] == ValueOf(entries[i].value)
    decreases |entries|
  {
    if entries != [] {
      var rest := entries[1..];
      var entry := entries[0].value;
      var key, value := KeyOf(entry), ValueOf(entry);
      var next := acc[key := value];
      assert AddEntries(acc, entries) == AddEntries(next, rest);
      AddEntriesKeepsAcc(next, rest);
      AddEntriesValues(next, rest);
      var m := AddEntries(next, rest).value;
      forall i | 0 <= i < |entries| && entries[i].Some?
        ensures KeyOf(entries[i].value) in m && m[KeyOf(entries[i].value)] == ValueOf(entries[i].value)
      {
        if i > 0 { assert rest[i - 1] == entries[i]; }
      }
    }
  }

  /** Each way the loop can throw is caused by the input: NullReference by a null element,
      DuplicateKey(k) by a key already present or two elements with key k. */
  lemma {:induction false} AddEntriesErrors(acc: map<string, string>, entries: seq<Option<string>>)
    ensures AddEntries(acc, entries) == Err(NullReference) ==>
              exists i :: 0 <= i < |entries| && entries[i].None?
    ensures AllPresent(entries) && AddEntries(acc, entries).Err? ==>
              AddEntries(acc, entries).error.DuplicateKey?
    ensures forall k :: AddEntries(acc, entries) == Err(DuplicateKey(k)) ==>
              exists j :: 0 <= j < |entries| && entries[j].Some? && KeyOf(entries[j].value) == k &&
                (k in acc || exists i :: 0 <= i < j && entries[i].Some? && KeyOf(entries[i].value) == k)
    decreases |entries|
  {
    if entries != [] {
      var rest := entries[1..];
      match entries[0]
      case None =>
      case Some(entry) =>
        var key, value := KeyOf(entry), ValueOf(entry);
        if key !in acc {
          AddEntriesErrors(acc[key := value], rest);
          if AddEntries(acc, entries) == Err(NullReference) {
            var i :| 0 <= i < |rest| && rest[i].None?;
            assert entries[i + 1] == rest[i];
          }
          if AllPresent(entries) {
            assert AllPresent(rest) by {
              forall j | 0 <= j < |rest| ensures rest[j].Some? { assert rest[j] == entries[j + 1]; }
            }
          }
          forall k | AddEntries(acc, entries) == Err(DuplicateKey(k))
            ensures exists j :: 0 <= j < |entries| && entries[j].Some? && KeyOf(entries[j].value) == k &&
                      (k in acc || exists i :: 0 <= i < j && entries[i].Some? && KeyOf(entries[i].value) == k)
          {
            var j :| 0 <= j < |rest| && rest[j].Some? && KeyOf(rest[j].value) == k &&
              (k in acc[key := value] || exists i :: 0 <= i < j && rest[i].Some? && KeyOf(rest[i].value) == k);
            assert entries[j + 1] == rest[j];
            if k !in acc {
              if k == key {
                assert entries[0].Some? && KeyOf(entries[0].value) == k;
              } else {
                var i :| 0 <= i < j && rest[i].Some? && KeyOf(rest[i].value) == k;
                assert entries[i + 1] == rest[i];
              }
            }
          }
        } else {
          assert entries[0].Some? && KeyOf(entries[0].value) == key;
        }
    }
  }

  /** Parsing a non-null array succeeds exactly when no element is null and no two keys are equal. */
  lemma ParseSucceedsIff(entries: seq<Option<string>>)
    ensures Parse(Some(entries)).Ok? <==> AllPresent(entries) && DistinctKeys(entries)
  {
    AddEntriesOkIff(map[], entries);
  }

  /** On success the dictionary has exactly the elements' keys, one per element, each mapped
      to its element's value. */
  lemma ParseContents(entries: seq<Option<string>>)
    requires Parse(Some(entries)).Ok?
    ensures Parse(Some(entries)).value.Some?
    ensures var headers := Parse(Some(entries)).value.value;
      && headers.Keys == KeySet(entries)
      && |headers| == |entries|
      && forall i :: 0 <= i < |entries| ==>
           entries[i].Some? && headers[KeyOf(entries[i].value)] == ValueOf(entries[i].value)
  {
    assert Parse(Some(entries)) == Ok(Some(AddEntries(map[], entries).value));
    AddEntriesOkIff(map[], entries);
    AddEntriesKeys(map[], entries);
    AddEntriesValues(map[], entries);
  }

  /** A failure names its cause: NullReference only when an element is null, DuplicateKey(k)
      only when two elements have key k; with no null element, a repeated key is what fails. */
  lemma ParseFailures(entries: seq<Option<string>>)
    ensures Parse(Some(entries)) == Err(NullReference) ==>
              exists i :: 0 <= i < |entries| && entries[i].None?
    ensures forall k :: Parse(Some(entries)) == Err(DuplicateKey(k)) ==>
              exists i, j :: 0 <= i < j < |entries| && entries[i].Some? && entries[j].Some? &&
                KeyOf(entries[i].value) == k && KeyOf(entries[j].value) == k
    ensures AllPresent(entries) && !DistinctKeys(entries) ==>
              Parse(Some(entries)).Err? && Parse(Some(entries)).error.DuplicateKey?
  {
    AddEntriesOkIff(map[], entries);
    AddEntriesErrors(map[], entries);
  }

  /** Elements with at most one comma and distinct keys: "k,v" maps k to v, and "k" maps k to "". */
  lemma ParseSimpleEntries(entries: seq<string>)
    requires forall i :: 0 <= i < |entries| ==> Count(entries[i], Comma) <= 1
    requires forall i, j :: 0 <= i < j < |entries| ==> KeyOf(entries[i]) != KeyOf(entries[j])
    ensures Parse(Some(seq(|entries|, i requires 0 <= i < |entries| => Some(entries[i])))).Ok?
    ensures var headers := Parse(Some(seq(|entries|, i requires 0 <= i < |entries| => Some(entries[i])))).value.value;
      forall i :: 0 <= i < |entries| ==>
        if Comma in entries[i] then
          KeyOf(entries[i]) in headers && entries[i] == KeyOf(entries[i]) + [Comma] + headers[KeyOf(entries[i])]
        else
          entries[i] in headers && headers[entries[i]] == ""
  {
    var raw := seq(|entries|, i requires 0 <= i < |entries| => Some(entries[i]));
    assert forall i :: 0 <= i < |raw| ==> raw[i] == Some(entries[i]);
    ParseSucceedsIff(raw);
    ParseContents(raw);
    forall i | 0 <= i < |entries| {
      EntryRebuilt(entries[i]);
    }
  }

  /**
   * One request's description. Unity fills the public fields and the raw header
   * list from serialized data; `headers` is the private cache behind the Headers
   * property, None (null) until the first successful read.
   */
  class RequestInfo {
    var fakeDemoSec: real
    var requestMethod: RequestMethod
    var uri: string
    /** The private serialized list: written only when the description is deserialized. */
    const headerRef: RawHeaders
    var headers: HeaderDictionary
    /** How many times the raw list has been parsed. */
    ghost var parseCount: nat

    /** The cache, once filled, holds what parsing the raw list gives. */
    ghost predicate Valid()
      reads this
    {
      headers.Some? ==> Parse(headerRef) == Ok(headers)
    }

    constructor (fakeDemoSec: real, requestMethod: RequestMethod, uri: string, headerRef: RawHeaders)
      ensures Valid()
      ensures this.fakeDemoSec == fakeDemoSec && this.requestMethod == requestMethod && this.uri == uri
      ensures this.headerRef == headerRef && headers == None && parseCount == 0
    {
      this.fakeDemoSec := fakeDemoSec;
      this.requestMethod := requestMethod;
      this.uri := uri;
      this.headerRef := headerRef;
      headers := None;
      parseCount := 0;
    }

    /** Builds the dictionary entry by entry, splitting each entry at every comma. */
    static method SetHeader(values: RawHeaders) returns (r: Result<HeaderDictionary, ParseError>)
      ensures r == Parse(values)
    {
      var guard := NullGuard(values);
      if guard.Err? {
        return Err(guard.error);
      }
      if guard.value {
        return Ok(None);
      }
      var entries := values.value;
      var headers: map<string, string> := map[];
      for i := 0 to |entries|
        invariant AddEntries(headers, entries[i..]) == AddEntries(map[], entries)
      {
        assert entries[i..][1..] == entries[i + 1..];
        match entries[i] {
          case None =>
            return Err(NullReference);
          case Some(value) =>
            var pairs := Split(value, Comma);
            var key := pairs[0];
            if key in headers {
              return Err(DuplicateKey(key));
            }
            headers := headers[key := if |pairs| > 1 then pairs[1] else ""];
        }
      }
      return Ok(Some(headers));
    }

    /**
     * The Headers property: parses the raw list on the first read and returns the
     * cached dictionary on every later read. A read that throws leaves the cache
     * empty. Every read gives what parsing the raw list gives.
     */
    method Headers() returns (r: Result<HeaderDictionary, ParseError>)
      requires Valid()
      modifies this`headers, this`parseCount
      ensures Valid()
      ensures r == Parse(headerRef)
      ensures old(headers).Some? ==> headers == old(headers) && parseCount == old(parseCount)
      ensures old(headers).None? ==>
                parseCount == old(parseCount) + 1 && headers == (if r.Ok? then r.value else None)
    {
      if headers == None {
        var built := SetHeader(headerRef);
        parseCount := parseCount + 1;
        if built.Err? {
          return built;
        }
        headers := built.value;
      }
      return Ok(headers);
    }
  }

  /** Two reads of Headers agree, and once a read has succeeded no later read parses again. */
  method ReadHeadersTwice(info: RequestInfo) returns (first: Result<HeaderDictionary, ParseError>, second: Result<HeaderDictionary, ParseError>)
    requires info.Valid()
    modifies info`headers, info`parseCount
    ensures info.Valid()
    ensures first == second == Parse(info.headerRef)
    ensures first.Ok? ==> info.headers == first.value
    ensures first.Ok? ==> info.parseCount == old(info.parseCount) + (if old(info.headers).None? then 1 else 0)
  {
    first := info.Headers();
    second := info.Headers();
  }
}
