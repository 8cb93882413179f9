/** Tagged numeric results of a statistic (classes MafStatisticsResult and
    SimpleMafStatisticsResult of MafStatistics.h). */
module StatisticsResults {
  import opened Wrappers
  import opened MafErrors

  /** The range of a C++ `int` and of an `unsigned int`. */
  type Int32 = i: int | -0x8000_0000 <= i < 0x8000_0000
  type UInt32 = n: int | 0 <= n < 0x1_0000_0000

  /** A stored number remembers which of the three setters produced it.
      Floating-point values are only stored, so they are kept as reals. */
  datatype Number = Double(x: real) | Integer(i: Int32) | Unsigned(n: UInt32)

  /** At most one number per tag. */
  datatype StatResult = StatResult(values: map<string, Number>)

  function EmptyResult(): (r: StatResult)
    ensures AvailableTags(r) == {}
  {
    StatResult(map[])
  }

  /** A number is stored under `tag` exactly when looking it up succeeds. */
  function HasValue(r: StatResult, tag: string): (b: bool)
    ensures b <==> GetValue(r, tag).Ok?
  {
    tag in r.values
  }

  /** The number stored under `tag`; fails, naming the tag, when there is
      none. */
  function GetValue(r: StatResult, tag: string): (v: Result<Number, Error>)
    ensures v.Ok? ==> tag in r.values && r.values[tag] == v.value
    ensures v.Err? ==> v.error == NoValueForTag(tag)
  {
    if tag in r.values then Ok(r.values[tag]) else Err(NoValueForTag(tag))
  }

  /** Stores `v` under `tag`, replacing whatever was there; the kind of
      `v` is that of the setter called (double, int or unsigned int). */
  function SetValue(r: StatResult, tag: string, v: Number): (r': StatResult)
    ensures GetValue(r', tag) == Ok(v)
    ensures forall other :: other != tag ==> GetValue(r', other) == GetValue(r, other)
    ensures AvailableTags(r') == AvailableTags(r) + {tag}
  {
    StatResult(r.values[tag := v])
  }

  /** All tags that hold a value. */
  function AvailableTags(r: StatResult): (tags: set<string>)
    ensures forall tag :: tag in tags <==> HasValue(r, tag)
  {
    r.values.Keys
  }

  /** A later write under the same tag hides an earlier one completely. */
  lemma SetValueOverwrites(r: StatResult, tag: string, a: Number, b: Number)
    ensures SetValue(SetValue(r, tag, a), tag, b) == SetValue(r, tag, b)
  {
  }

  /** Writes under different tags do not interfere. */
  lemma SetValueCommutes(r: StatResult, t1: string, t2: string, a: Number, b: Number)
    requires t1 != t2
    ensures SetValue(SetValue(r, t1, a), t2, b) == SetValue(SetValue(r, t2, b), t1, a)
  {
  }

  /** Two results with the same lookups are the same result. */
  lemma SameLookupsSameResult(r: StatResult, s: StatResult)
    requires forall tag :: GetValue(r, tag) == GetValue(s, tag)
    ensures r == s
  {
    forall tag | tag in r.values
      ensures tag in s.values && r.values[tag] == s.values[tag]
    {
      assert GetValue(r, tag) == GetValue(s, tag);
    }
    forall tag | tag in s.values
      ensures tag in r.values
    {
      assert GetValue(r, tag) == GetValue(s, tag);
    }
  }

  /** The copy constructor as written: the new object starts with an empty
      map and the copying loop walks that same new map rather than the map
      of the object being copied. */
  function CopyAsWritten(src: StatResult): (r: StatResult)
    ensures AvailableTags(r) == {}
    ensures forall tag :: GetValue(r, tag) == Err(NoValueForTag(tag))
  {
    var self := EmptyResult();
    StatResult(map tag | tag in self.values :: self.values[tag])
  }

  /** The assignment operator as written: the map is cleared and the
      copying loop then walks the cleared map. */
  function AssignAsWritten(dst: StatResult, src: StatResult): (r: StatResult)
    ensures AvailableTags(r) == {}
    ensures forall tag :: GetValue(r, tag) == Err(NoValueForTag(tag))
  {
    var self := dst.(values := map[]);
    StatResult(map tag | tag in self.values :: self.values[tag])
  }

  /** Whatever the source holds, a copy or an assignment as written holds
      nothing. */
  lemma CopyAsWrittenLosesValues(dst: StatResult, src: StatResult, tag: string)
    requires HasValue(src, tag)
    ensures GetValue(CopyAsWritten(src), tag) == Err(NoValueForTag(tag))
    ensures GetValue(AssignAsWritten(dst, src), tag) == Err(NoValueForTag(tag))
    ensures CopyAsWritten(src) != src && AssignAsWritten(dst, src) != src
  {
    assert !HasValue(CopyAsWritten(src), tag);
    assert !HasValue(AssignAsWritten(dst, src), tag);
  }

  /** The copy the copy constructor is meant to make: one clone of every
      stored number, under the same tag. */
  function Copy(src: StatResult): (r: StatResult)
    ensures forall tag :: GetValue(r, tag) == GetValue(src, tag)
    ensures AvailableTags(r) == AvailableTags(src)
  {
    StatResult(map tag | tag in src.values :: src.values[tag])
  }

  /** The assignment the assignment operator is meant to perform: the
      previous contents are dropped and those of `src` copied in. */
  function Assign(dst: StatResult, src: StatResult): (r: StatResult)
    ensures forall tag :: GetValue(r, tag) == GetValue(src, tag)
    ensures AvailableTags(r) == AvailableTags(src)
  {
    Copy(src)
  }

  /** Copying gives back an equal result. */
  lemma CopyIsIdentity(src: StatResult, dst: StatResult)
    ensures Copy(src) == src && Assign(dst, src) == src
  {
    SameLookupsSameResult(Copy(src), src);
  }

  // ---------------------------------------------------------------------
  // Single-value results.

  /** A result that accepts writes under one tag only. */
  datatype SimpleResult = SimpleResult(name: string, store: StatResult)

  /** The store holds exactly the one tag of the result. */
  predicate ValidSimple(s: SimpleResult) {
    AvailableTags(s.store) == {s.name}
  }

  /** A new single-value result holds the integer 0 under its name. */
  function NewSimpleResult(name: string): (s: SimpleResult)
    ensures s.name == name && ValidSimple(s)
    ensures GetValue(s.store, name) == Ok(Integer(0))
  {
    SimpleResult(name, SetValue(EmptyResult(), name, Integer(0)))
  }

  /** The tag-less setters: always write under the result's name. */
  function SetSimpleValue(s: SimpleResult, v: Number): (s': SimpleResult)
    ensures s'.name == s.name
    ensures GetValue(s'.store, s.name) == Ok(v)
    ensures AvailableTags(s'.store) == AvailableTags(s.store) + {s.name}
    ensures ValidSimple(s) ==> ValidSimple(s')
  {
    s.(store := SetValue(s.store, s.name, v))
  }

  /** The tagged setters: a tag other than the result's name is refused and
      nothing is written. */
  function SetSimpleValueForTag(s: SimpleResult, tag: string, v: Number): (r: Result<SimpleResult, Error>)
    ensures r.Err? <==> tag != s.name
    ensures r.Err? ==> r.error == InvalidTagName(tag)
    ensures r.Ok? ==> r.value.name == s.name && GetValue(r.value.store, tag) == Ok(v)
    ensures r.Ok? ==> forall other :: other != tag ==> GetValue(r.value.store, other) == GetValue(s.store, other)
    ensures r.Ok? && ValidSimple(s) ==> ValidSimple(r.value)
  {
    if tag == s.name then Ok(SetSimpleValue(s, v)) else Err(InvalidTagName(tag))
  }

  /** The tag-less getter.  It dereferences the entry under the name without
      checking that there is one, so a stored value is required. */
  function SimpleValue(s: SimpleResult): (v: Number)
    requires HasValue(s.store, s.name)
    ensures GetValue(s.store, s.name) == Ok(v)
  {
    s.store.values[s.name]
  }

  /** Applies a series of tagged writes, stopping at the first refused one. */
  function ApplyWrites(s: SimpleResult, writes: seq<(string, Number)>): Result<SimpleResult, Error>
    decreases |writes|
  {
    if |writes| == 0 then Ok(s)
    else
      var s' :- SetSimpleValueForTag(s, writes[0].0, writes[0].1);
      ApplyWrites(s', writes[1..])
  }

  /** However a single-value result is written to, it keeps exactly its one
      tag and its name; the writes succeed exactly when all of them use the
      name, and then the last write is the value read back. */
  lemma {:induction false} SimpleResultKeepsOneTag(s: SimpleResult, writes: seq<(string, Number)>)
    requires ValidSimple(s)
    ensures ApplyWrites(s, writes).Ok? <==> forall i :: 0 <= i < |writes| ==> writes[i].0 == s.name
    ensures ApplyWrites(s, writes).Ok? ==>
              var s' := ApplyWrites(s, writes).value;
              s'.name == s.name && ValidSimple(s') &&
              (|writes| > 0 ==> GetValue(s'.store, s.name) == Ok(writes[|writes| - 1].1))
    decreases |writes|
  {
    if |writes| > 0 {
      var first := SetSimpleValueForTag(s, writes[0].0, writes[0].1);
      if first.Ok? {
        SimpleResultKeepsOneTag(first.value, writes[1..]);
        assert forall i :: 1 <= i < |writes| ==> writes[i] == writes[1..][i - 1];
        if |writes| > 1 {
          assert writes[|writes| - 1] == writes[1..][|writes[1..]| - 1];
        }
      }
    }
  }

  /** Copying a single-value result copies its store. */
  function CopySimple(s: SimpleResult): (c: SimpleResult)
    ensures c.name == s.name
    ensures forall tag :: GetValue(c.store, tag) == GetValue(s.store, tag)
    ensures ValidSimple(s) ==> ValidSimple(c)
  {
    SimpleResult(s.name, Copy(s.store))
  }

  /** A copy of a new single-value result made with the copy constructor as
      written has lost the entry under its name, which the tag-less getter
      then dereferences. */
  lemma CopiedSimpleResultHasNoValue(name: string)
    ensures var s := NewSimpleResult(name);
            var c := SimpleResult(s.name, CopyAsWritten(s.store));
            HasValue(s.store, name) && !HasValue(c.store, name) && !ValidSimple(c)
    ensures ValidSimple(CopySimple(NewSimpleResult(name)))
  {
    var s := NewSimpleResult(name);
    CopyAsWrittenLosesValues(s.store, s.store, name);
  }
}
