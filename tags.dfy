/** The tag registry and the tag extractor `extract` (tp2tj.py lines 22-49).

    The two regular expressions of lines 38 and 40 are replaced by scanners:
    `@<marker>\(([^)]*)\)\s*` for a tag that carries a value and `@<marker>\s*`
    for a bare tag. `Matches` says declaratively which spans such a pattern
    matches, and `Search` is proved to find the leftmost one, as re.search does. */
module Tags {
  import opened Wrappers
  import opened Text

  /** One registry entry: the marker written after `@`, the output name, whether
      the tag takes a parenthesised value, and the configured default (never used
      by the extractor). */
  datatype TagDef = TagDef(tag: string, name: string, hasVal: bool, default: Option<string>)

  function DefNames(defs: seq<TagDef>): (r: seq<string>)
    ensures |r| == |defs| && forall i :: 0 <= i < |defs| ==> r[i] == defs[i].name
  {
    seq(|defs|, i requires 0 <= i < |defs| => defs[i].name)
  }

  predicate Distinct(s: seq<string>) {
    forall i, j :: 0 <= i < j < |s| ==> s[i] != s[j]
  }

  /** A Python dict from output name to value: its keys in insertion order and its contents. */
  datatype TagMap = TagMap(keys: seq<string>, vals: map<string, Option<string>>) {
    /** Keys are unique and are exactly the keys of the contents. */
    ghost predicate Valid() {
      Distinct(keys) && forall k :: k in vals <==> k in keys
    }

    /** `self[k] = v`: overwrites the value of an existing key in place, or appends a new key. */
    function Put(k: string, v: Option<string>): (r: TagMap)
      ensures Valid() ==> r.Valid()
      ensures r.keys == if k in keys then keys else keys + [k]
      ensures r.vals.Keys == vals.Keys + {k} && r.vals[k] == v
      ensures forall k' :: k' in vals && k' != k ==> r.vals[k'] == vals[k']
    {
      assert k !in keys ==> (Distinct(keys) ==> Distinct(keys + [k]));
      TagMap(if k in keys then keys else keys + [k], vals[k := v])
    }
  }

  const EmptyTags := TagMap([], map[])

  /** The literal text `@<marker>`; markers are taken to contain no regex metacharacters. */
  function Marker(d: TagDef): string {
    "@" + d.tag
  }

  /** A span [start, end) of the line matched by a tag pattern, and the captured value. */
  datatype Match = Match(start: nat, end: nat, value: Option<string>)

  /** `\s*` starting at `from` consumes exactly up to `to` (greedily). */
  predicate SpaceRun(s: string, from: nat, to: nat) {
    && from <= to <= |s|
    && (forall x :: from <= x < to ==> IsSpace(s[x]))
    && (to == |s| || !IsSpace(s[to]))
  }

  /** The pattern of definition d matches s on the span m:
      `@<marker>` at m.start; for a valued tag `(`, the value (free of `)`), `)`;
      then the maximal run of whitespace, which ends the span. */
  ghost predicate Matches(s: string, d: TagDef, m: Match) {
    var j := m.start + |Marker(d)|;
    && OccursAt(s, Marker(d), m.start)
    && if d.hasVal then
         && m.value.Some?
         && var v := m.value.value;
         && var k := j + 1 + |v|;
         && k < |s|
         && s[j] == '('
         && s[j + 1..k] == v
         && ')' !in v
         && s[k] == ')'
         && SpaceRun(s, k + 1, m.end)
       else
         && m.value == None
         && SpaceRun(s, j, m.end)
  }

  /** m is the match re.search reports: no match starts further left. */
  ghost predicate Leftmost(s: string, d: TagDef, m: Match) {
    Matches(s, d, m) && forall m': Match :: m'.start < m.start ==> !Matches(s, d, m')
  }

  /** The end of the whitespace run that starts at `from`. */
  function SkipSpaces(s: string, from: nat): (r: nat)
    requires from <= |s|
    ensures SpaceRun(s, from, r)
    decreases |s| - from
  {
    if from < |s| && IsSpace(s[from]) then SkipSpaces(s, from + 1) else from
  }

  /** The first `)` at or after `from`. */
  function FindClose(s: string, from: nat): (r: Option<nat>)
    requires from <= |s|
    ensures r.Some? ==> from <= r.value < |s| && s[r.value] == ')'
    ensures forall x :: from <= x < |s| && (r.None? || x < r.value) ==> s[x] != ')'
    decreases |s| - from
  {
    if from == |s| then None
    else if s[from] == ')' then Some(from)
    else FindClose(s, from + 1)
  }

  /** The whitespace run ending a match is determined by where it starts. */
  lemma SpaceRunUnique(s: string, from: nat, a: nat, b: nat)
    requires SpaceRun(s, from, a) && SpaceRun(s, from, b)
    ensures a == b
  {
  }

  /** The pattern tried at position i (one anchored attempt of the regex engine). */
  function MatchAt(s: string, d: TagDef, i: nat): (r: Option<Match>)
    requires i <= |s|
    ensures r.Some? ==> r.value.start == i && Matches(s, d, r.value)
  {
    var j := i + |Marker(d)|;
    if !OccursAt(s, Marker(d), i) then None
    else if !d.hasVal then Some(Match(i, SkipSpaces(s, j), None))
    else if j == |s| || s[j] != '(' then None
    else
      match FindClose(s, j + 1)
      case None => None
      case Some(k) => Some(Match(i, SkipSpaces(s, k + 1), Some(s[j + 1..k])))
  }

  /** MatchAt finds every match that starts at its position. */
  lemma MatchAtComplete(s: string, d: TagDef, m: Match)
    requires Matches(s, d, m)
    ensures m.start <= |s| && MatchAt(s, d, m.start) == Some(m)
  {
    var j := m.start + |Marker(d)|;
    if d.hasVal {
      var k := j + 1 + |m.value.value|;
      var c := FindClose(s, j + 1);
      assert forall x :: j + 1 <= x < k ==> s[x] != ')' by {
        forall x | j + 1 <= x < k ensures s[x] != ')' {
          assert s[j + 1..k][x - (j + 1)] == s[x];
        }
      }
      SpaceRunUnique(s, k + 1, SkipSpaces(s, k + 1), m.end);
    } else {
      SpaceRunUnique(s, j, SkipSpaces(s, j), m.end);
    }
  }

  /** re.search from position `from`: the leftmost match, if any. */
  function Search(s: string, d: TagDef, from: nat): (r: Option<Match>)
    requires from <= |s|
    ensures r.Some? ==> from <= r.value.start && Matches(s, d, r.value)
    ensures forall m: Match :: from <= m.start && Matches(s, d, m) ==> r.Some? && r.value.start <= m.start
    decreases |s| - from
  {
    match MatchAt(s, d, from)
    case Some(m) => Some(m)
    case None =>
      assert forall m: Match :: m.start == from ==> !Matches(s, d, m) by {
        forall m: Match | m.start == from && Matches(s, d, m) ensures false {
          MatchAtComplete(s, d, m);
        }
      }
      if from == |s| then None else Search(s, d, from + 1)
  }

  /** The leftmost match is the one Search reports. */
  lemma {:induction false} LeftmostIsSearch(s: string, d: TagDef, m: Match)
    requires Leftmost(s, d, m)
    ensures Search(s, d, 0) == Some(m)
  {
    var r := Search(s, d, 0).value;
    MatchUnique(s, d, r, m);
  }

  /** Two matches of one pattern that start at the same place are the same match. */
  lemma MatchUnique(s: string, d: TagDef, m1: Match, m2: Match)
    requires Matches(s, d, m1) && Matches(s, d, m2) && m1.start == m2.start
    ensures m1 == m2
  {
    MatchAtComplete(s, d, m1);
    MatchAtComplete(s, d, m2);
  }

  /** A recorded value suits its definition: present exactly for a valued tag, and then free of `)`. */
  predicate Fits(v: Option<string>, d: TagDef) {
    (v.Some? <==> d.hasVal) && (v.Some? ==> ')' !in v.value)
  }

  /** One iteration of the loop of lines 33-47: cut the leftmost match of d's
      pattern out of the line and record `name -> value`; otherwise change nothing. */
  function ExtractOne(line: string, tags: TagMap, d: TagDef): (r: (string, TagMap))
    ensures (forall m: Match :: !Matches(line, d, m)) ==> r == (line, tags)
    ensures forall m: Match :: Leftmost(line, d, m) ==>
      m.end <= |line| && r == (line[..m.start] + line[m.end..], tags.Put(d.name, m.value))
    ensures |r.0| <= |line|
    ensures tags.Valid() ==> r.1.Valid()
    ensures r.1.keys == tags.keys || r.1.keys == tags.keys + [d.name]
    ensures forall k :: k in r.1.vals ==>
      (k in tags.vals && r.1.vals[k] == tags.vals[k]) || (k == d.name && Fits(r.1.vals[k], d))
  {
    match Search(line, d, 0)
    case None => (line, tags)
    case Some(m) =>
      assert forall m': Match :: Leftmost(line, d, m') ==> m' == m by {
        forall m': Match | Leftmost(line, d, m') ensures m' == m {
          MatchUnique(line, d, m, m');
        }
      }
      (line[..m.start] + line[m.end..], tags.Put(d.name, m.value))
  }

  /** The loop of lines 33-47 over the definitions still to try, from a
      partly shrunk line and a partly filled dictionary. */
  function ExtractAll(line: string, tags: TagMap, defs: seq<TagDef>): (r: (string, TagMap))
    ensures |r.0| <= |line|
    ensures tags.Valid() ==> r.1.Valid()
    ensures |r.1.keys| <= |tags.keys| + |defs|
    ensures forall k :: k in r.1.keys ==> k in tags.keys || k in DefNames(defs)
    ensures forall k :: k in r.1.vals ==>
      (k in tags.vals && r.1.vals[k] == tags.vals[k]) || exists d :: d in defs && d.name == k && Fits(r.1.vals[k], d)
    decreases |defs|
  {
    if defs == [] then (line, tags)
    else
      var (l, t) := ExtractOne(line, tags, defs[0]);
      var r := ExtractAll(l, t, defs[1..]);
      assert DefNames(defs) == [defs[0].name] + DefNames(defs[1..]);
      assert forall k :: k in r.1.vals ==>
        (k in tags.vals && r.1.vals[k] == tags.vals[k]) || exists d :: d in defs && d.name == k && Fits(r.1.vals[k], d)
      by {
        forall k | k in r.1.vals && !(k in tags.vals && r.1.vals[k] == tags.vals[k])
          ensures exists d :: d in defs && d.name == k && Fits(r.1.vals[k], d)
        {
          if k in t.vals && r.1.vals[k] == t.vals[k] {
            assert defs[0] in defs;
          } else {
            var d :| d in defs[1..] && d.name == k && Fits(r.1.vals[k], d);
            assert d in defs;
          }
        }
      }
      r
  }

  /** extract(line) with the registry `reg` standing for the global TAGS: the
      shrunk line and the tag dictionary, one key per matching definition name,
      each value fitting a definition of that name. */
  function Extract(line: string, reg: seq<TagDef>): (r: (string, TagMap))
    ensures |r.0| <= |line|
    ensures r.1.Valid()
    ensures |r.1.keys| <= |reg|
    ensures forall k :: k in r.1.keys ==> k in DefNames(reg)
    ensures forall k :: k in r.1.vals ==> exists d :: d in reg && d.name == k && Fits(r.1.vals[k], d)
  {
    ExtractAll(line, EmptyTags, reg)
  }

  // ---------------------------------------------------------------------------
  // Properties of the extractor

  /** With no registered marker in the line, the loop leaves line and dictionary as they are. */
  lemma {:induction false} ExtractAllNoMarker(line: string, tags: TagMap, defs: seq<TagDef>)
    requires forall d :: d in defs ==> !Occurs(line, Marker(d))
    ensures ExtractAll(line, tags, defs) == (line, tags)
    decreases |defs|
  {
    if defs != [] {
      var d := defs[0];
      assert d in defs;
      assert forall m: Match :: !Matches(line, d, m);
      assert ExtractOne(line, tags, d) == (line, tags);
      ExtractAllNoMarker(line, tags, defs[1..]);
    }
  }

  /** extract returns the line unchanged and an empty dictionary when the registry
      is empty or none of its markers occurs in the line. */
  lemma ExtractNoMarker(line: string, reg: seq<TagDef>)
    requires forall d :: d in reg ==> !Occurs(line, Marker(d))
    ensures Extract(line, reg) == (line, EmptyTags)
  {
    ExtractAllNoMarker(line, EmptyTags, reg);
  }

  /** Search reports exactly the leftmost match. */
  lemma {:induction false} SearchIsLeftmost(s: string, d: TagDef, m: Match)
    ensures Search(s, d, 0) == Some(m) <==> Leftmost(s, d, m)
  {
    if Leftmost(s, d, m) {
      var r := Search(s, d, 0).value;
      MatchUnique(s, d, r, m);
    }
  }

  /** Cutting s[a..b] out of s keeps an occurrence of w that starts at or after b. */
  lemma CutKeepsLater(s: string, w: string, a: nat, b: nat, q: nat)
    requires a <= b <= q && OccursAt(s, w, q)
    ensures OccursAt(s[..a] + s[b..], w, q - (b - a))
  {
    var r := s[..a] + s[b..];
    var q' := q - (b - a);
    forall x | 0 <= x < |w| ensures r[q' + x] == w[x] {
      assert r[q' + x] == s[b..][q' + x - a] == s[q + x];
      assert s[q + x] == s[q..q + |w|][x];
    }
  }

  /** Only the leftmost occurrence of a bare marker is removed: a later,
      non-overlapping occurrence of the same marker stays in the line. */
  lemma RepeatedMarkerStays(line: string, tags: TagMap, d: TagDef, p: nat, q: nat)
    requires !d.hasVal
    requires OccursAt(line, Marker(d), p) && OccursAt(line, Marker(d), q) && p + |Marker(d)| <= q
    ensures |ExtractOne(line, tags, d).0| < |line|
    ensures Occurs(ExtractOne(line, tags, d).0, Marker(d))
  {
    var w := Marker(d);
    assert Matches(line, d, Match(p, SkipSpaces(line, p + |w|), None));
    var m := Search(line, d, 0).value;
    SearchIsLeftmost(line, d, m);
    assert m.start < m.end <= q by {
      assert m.start <= p;
      assert line[q] == line[q..q + |w|][0] == '@';
      assert SpaceRun(line, m.start + |w|, m.end);
    }
    assert ExtractOne(line, tags, d).0 == line[..m.start] + line[m.end..];
    CutKeepsLater(line, w, m.start, m.end, q);
  }

  /** A valued marker whose `(` is never closed does not match: when no `)`
      follows the first occurrence of `@<marker>`, the step changes nothing. */
  lemma UnclosedValueIgnored(line: string, tags: TagMap, d: TagDef, p: nat)
    requires d.hasVal
    requires forall x: nat :: x < p ==> !OccursAt(line, Marker(d), x)
    requires forall x :: p <= x < |line| ==> line[x] != ')'
    ensures ExtractOne(line, tags, d) == (line, tags)
  {
    assert forall m: Match :: !Matches(line, d, m) by {
      forall m: Match ensures !Matches(line, d, m) {
        if OccursAt(line, Marker(d), m.start) {
          var k := m.start + |Marker(d)| + 1 + if m.value.Some? then |m.value.value| else 0;
          assert p <= m.start < k;
        }
      }
    }
  }

  /** The text at p cannot start with w when its first character differs. */
  lemma NotAt(s: string, w: string, p: nat)
    requires p < |s| && |w| > 0 && s[p] != w[0]
    ensures !OccursAt(s, w, p)
  {
    assert p + |w| <= |s| ==> s[p..p + |w|][0] == s[p];
  }

  /** A bare marker also matches the front of a longer word: `@alloc` inside
      `@allocate` is cut out and leaves `ate` behind. */
  lemma PrefixOfLongerWord()
    ensures Extract("go @allocate", [TagDef("alloc", "alloc", false, None)])
         == ("go ate", TagMap(["alloc"], map["alloc" := None]))
  {
    var d := TagDef("alloc", "alloc", false, None);
    var s := "go @allocate";
    assert OccursAt(s, Marker(d), 3);
    assert SkipSpaces(s, 9) == 9;
    assert MatchAt(s, d, 3) == Some(Match(3, 9, None));
    NotAt(s, Marker(d), 0); NotAt(s, Marker(d), 1); NotAt(s, Marker(d), 2);
    assert Search(s, d, 0) == Some(Match(3, 9, None));
    assert s[..3] + s[9..] == "go ate";
    var t := EmptyTags.Put("alloc", None);
    assert t == TagMap(["alloc"], map["alloc" := None]);
    assert ExtractOne(s, EmptyTags, d) == ("go ate", t);
    assert ExtractAll(s, EmptyTags, [d]) == ExtractAll("go ate", t, []);
  }

  /** Extracting twice is not idempotent: a repeated marker survives the first pass
      and is found by the second. */
  lemma ExtractNotIdempotent()
    ensures var reg := [TagDef("x", "x", false, None)];
            var once := Extract("a @x @x", reg).0;
            once == "a @x" && Extract(once, reg).1 != EmptyTags
  {
    var d := TagDef("x", "x", false, None);
    var s := "a @x @x";
    assert OccursAt(s, Marker(d), 2);
    NotAt(s, Marker(d), 0); NotAt(s, Marker(d), 1);
    assert SkipSpaces(s, 4) == 5;
    assert Search(s, d, 0) == Some(Match(2, 5, None));
    assert s[..2] + s[5..] == "a @x";
    var t := "a @x";
    assert OccursAt(t, Marker(d), 2);
    NotAt(t, Marker(d), 0); NotAt(t, Marker(d), 1);
    assert Search(t, d, 0).Some?;
  }
}
