/** The query splitter the request side relies on: `Rack::Utils.parse_query(header, ';,')`
    with a block that unescapes each token.

    The header is cut at every `;` or `,`; spaces right after a separator belong to the
    separator. Empty pieces are skipped; each other piece is cut at its first `=` into a
    name and a value (no `=` gives a `nil` value). Names and values go through the
    unescaper. The pieces are then folded, in order, into a hash: a name seen for the
    first time (or whose stored value is `nil`) gets the value as a scalar; a name whose
    stored value is truthy gets an array `[stored, value, ...]`. */
module RackQuery {
  import opened Wrappers

  /** A name and its value; the value is `None` when the piece carried no `=`. */
  type Pair = (string, Option<string>)

  /** An unescaping step that may fail (`None` stands for an exception). */
  type Unescaper = string -> Option<string>

  /** What the hash holds for one name before it is flattened: a scalar, or a Ruby
      array `[first] + rest` once a second value arrived. */
  datatype Param = Scalar(value: Option<string>) | Multi(first: Option<string>, rest: seq<Option<string>>)

  const Separators: set<char> := {';', ','}

  predicate NoSeparator(s: string) {
    forall k :: 0 <= k < |s| ==> s[k] !in Separators
  }

  /** Index of the first character of `s` that belongs to `cs`, if there is one. */
  function FirstIndexOf(s: string, cs: set<char>): (r: Option<nat>)
    ensures r.Some? ==> r.value < |s| && s[r.value] in cs
    ensures r.Some? ==> forall k :: 0 <= k < r.value ==> s[k] !in cs
    ensures r.None? ==> forall k :: 0 <= k < |s| ==> s[k] !in cs
  {
    if s == [] then None
    else if s[0] in cs then Some(0)
    else match FirstIndexOf(s[1..], cs)
      case None => None
      case Some(i) => Some(i + 1)
  }

  /** `s` without its leading spaces (the spaces a separator swallows); `SkipSpacesSpec`
      states what is dropped and what is kept. */
  function SkipSpaces(s: string): (r: string)
    ensures |r| <= |s|
  {
    if s != [] && s[0] == ' ' then SkipSpaces(s[1..]) else s
  }

  /** `SkipSpaces` keeps a suffix that does not start with a space, and drops nothing
      but spaces. */
  lemma {:induction false} SkipSpacesSpec(s: string)
    ensures var r := SkipSpaces(s);
      && r == s[|s| - |r|..]
      && (r == [] || r[0] != ' ')
      && forall k :: 0 <= k < |s| - |r| ==> s[k] == ' '
  {
    if s != [] && s[0] == ' ' {
      SkipSpacesSpec(s[1..]);
      var r := SkipSpaces(s);
      assert r == SkipSpaces(s[1..]);
      assert s[1..][|s| - 1 - |r|..] == s[|s| - |r|..];
      forall k | 1 <= k < |s| - |r| ensures s[k] == ' ' {
        assert s[k] == s[1..][k - 1];
      }
    }
  }

  // `s.split(/[;,] */)`. Ruby drops trailing empty pieces and gives `[]` for `""`;
  // here they stay, since the fold skips every empty piece anyway.
  function Split(s: string): (pieces: seq<string>)
    ensures |pieces| >= 1 && pieces[0] <= s
    ensures forall i :: 0 <= i < |pieces| ==> NoSeparator(pieces[i])
    decreases |s|
  {
    var first := FirstIndexOf(s, Separators);
    if first.None? then [s] else [s[..first.value]] + Split(SkipSpaces(s[first.value + 1..]))
  }

  /** The separator texts `Split` cuts out of `s`, in order: each a `;` or `,` with the
      spaces after it. */
  function Separated(s: string): seq<string>
    decreases |s|
  {
    var first := FirstIndexOf(s, Separators);
    if first.None? then [] else [SeparatorFrom(s, first.value)] + Separated(SkipSpaces(s[first.value + 1..]))
  }

  /** The separator at `i` with the spaces after it. */
  function SeparatorFrom(s: string, i: nat): string
    requires i < |s|
  {
    s[i..|s| - |SkipSpaces(s[i + 1..])|]
  }

  /** `piece.split('=', 2)`: the name up to the first `=`, and the rest as the value. */
  function SplitPair(piece: string): (r: Pair)
    ensures r.1.None? ==> r.0 == piece && '=' !in piece
    ensures r.1.Some? ==> piece == r.0 + "=" + r.1.value && '=' !in r.0
  {
    match FirstIndexOf(piece, {'='})
    case None => (piece, None)
    case Some(i) =>
      assert piece == piece[..i] + "=" + piece[i + 1..];
      (piece[..i], Some(piece[i + 1..]))
  }

  /** `unescape(s) rescue s`: a failing unescape keeps the raw token. */
  function Decode(unescape: Unescaper, token: string): string {
    match unescape(token)
    case Some(t) => t
    case None => token
  }

  function DecodePair(unescape: Unescaper, p: Pair): Pair {
    (Decode(unescape, p.0), match p.1 case Some(v) => Some(Decode(unescape, v)) case None => None)
  }

  /** The decoded pairs of the non-empty pieces, in header order. */
  function Pairs(unescape: Unescaper, pieces: seq<string>): (r: seq<Pair>)
    ensures |r| <= |pieces|
    ensures (forall i :: 0 <= i < |pieces| ==> pieces[i] == []) ==> r == []
    ensures (forall i :: 0 <= i < |pieces| ==> pieces[i] != []) ==>
      |r| == |pieces| && forall i :: 0 <= i < |r| ==> r[i] == DecodePair(unescape, SplitPair(pieces[i]))
  {
    if pieces == [] then []
    else (if pieces[0] == [] then [] else [DecodePair(unescape, SplitPair(pieces[0]))]) + Pairs(unescape, pieces[1..])
  }

  /** The pairs of one piece: none for an empty piece, else its decoded name and value. */
  lemma PairsOne(unescape: Unescaper, piece: string)
    ensures Pairs(unescape, [piece]) == if piece == [] then [] else [DecodePair(unescape, SplitPair(piece))]
  {
  }

  /** `Pairs` works piece by piece, in order: the pairs of `a + b` are those of `a`, then
      those of `b`. With `PairsOne`, empty pieces are skipped and the others kept in place. */
  lemma {:induction false} PairsAppend(unescape: Unescaper, a: seq<string>, b: seq<string>)
    ensures Pairs(unescape, a + b) == Pairs(unescape, a) + Pairs(unescape, b)
  {
    if a != [] {
      var head := if a[0] == [] then [] else [DecodePair(unescape, SplitPair(a[0]))];
      assert (a + b)[0] == a[0];
      assert (a + b)[1..] == a[1..] + b;
      assert Pairs(unescape, a + b) == head + Pairs(unescape, a[1..] + b);
      PairsAppend(unescape, a[1..], b);
    } else {
      assert a + b == b;
    }
  }

  /** The pairs as the header literally writes them, before unescaping. */
  function RawPairs(pieces: seq<string>): seq<Pair> {
    if pieces == [] then []
    else (if pieces[0] == [] then [] else [SplitPair(pieces[0])]) + RawPairs(pieces[1..])
  }

  /** The pairs `parse_query` folds for the text `qs || ''`. */
  function HeaderPairs(unescape: Unescaper, qs: Option<string>): seq<Pair> {
    Pairs(unescape, Split(qs.GetOr("")))
  }

  /** Ruby truthiness of a stored value: only `nil` is falsy (an array never is). */
  predicate Truthy(p: Param) {
    p.Multi? || p.value.Some?
  }

  /** One step of the fold: `if cur = params[k]` then append, else (re)assign. */
  function Store(params: map<string, Param>, p: Pair): (r: map<string, Param>)
  {
    if p.0 in params && Truthy(params[p.0]) then
      match params[p.0]
      case Multi(f, rest) => params[p.0 := Multi(f, rest + [p.1])]
      case Scalar(cur) => params[p.0 := Multi(cur, [p.1])]
    else params[p.0 := Scalar(p.1)]
  }

  /** The fold over `pairs` from left to right, starting from an empty hash. */
  function StoreAll(pairs: seq<Pair>): (r: map<string, Param>)
    ensures r.Keys == Names(pairs)
    decreases |pairs|
  {
    if pairs == [] then map[]
    else
      var pre, last := pairs[..|pairs| - 1], pairs[|pairs| - 1];
      NamesAppend(pre, last);
      assert pre + [last] == pairs;
      Store(StoreAll(pre), last)
  }

  /** `Rack::Utils.parse_query(qs, ';,') { |s| unescape(s) rescue s }`. */
  function ParseQuery(unescape: Unescaper, qs: Option<string>): (r: map<string, Param>)
    ensures FoldInvariant(r, HeaderPairs(unescape, qs))
  {
    StoreAllFirstValue(HeaderPairs(unescape, qs));
    StoreAll(HeaderPairs(unescape, qs))
  }

  /** `Array === v ? v.first : v`. */
  function Head(p: Param): Option<string> {
    match p
    case Scalar(v) => v
    case Multi(f, _) => f
  }

  // ---------------------------------------------------------------------------
  // Reference definitions: what a name's value should be, read off the pairs.

  /** The names occurring in `pairs`. */
  function Names(pairs: seq<Pair>): set<string> {
    set i | 0 <= i < |pairs| :: pairs[i].0
  }

  /** The values given to `name`, in header order. */
  function Occurrences(pairs: seq<Pair>, name: string): seq<Option<string>> {
    if pairs == [] then []
    else (if pairs[0].0 == name then [pairs[0].1] else []) + Occurrences(pairs[1..], name)
  }

  /** The first value that is not `nil`, or `nil` when there is none. */
  function FirstValue(vs: seq<Option<string>>): Option<string> {
    if vs == [] then None else if vs[0].Some? then vs[0] else FirstValue(vs[1..])
  }

  // ---------------------------------------------------------------------------
  // Lemmas

  lemma {:induction false} OccurrencesAppend(pairs: seq<Pair>, p: Pair, name: string)
    ensures Occurrences(pairs + [p], name) == Occurrences(pairs, name) + (if p.0 == name then [p.1] else [])
  {
    if pairs != [] {
      assert (pairs + [p])[1..] == pairs[1..] + [p];
      OccurrencesAppend(pairs[1..], p, name);
    }
  }

  lemma {:induction false} FirstValueAppend(vs: seq<Option<string>>, v: Option<string>)
    ensures FirstValue(vs + [v]) == if FirstValue(vs).Some? then FirstValue(vs) else v
  {
    if vs != [] {
      assert (vs + [v])[1..] == vs[1..] + [v];
      FirstValueAppend(vs[1..], v);
    }
  }

  /** A name that does not occur has no values. */
  lemma {:induction false} OccurrencesOfAbsentName(pairs: seq<Pair>, name: string)
    requires name !in Names(pairs)
    ensures Occurrences(pairs, name) == []
  {
    if pairs != [] {
      assert pairs[0].0 in Names(pairs);
      assert Names(pairs[1..]) <= Names(pairs) by {
        forall n | n in Names(pairs[1..]) ensures n in Names(pairs) {
          var i :| 0 <= i < |pairs[1..]| && pairs[1..][i].0 == n;
          assert pairs[i + 1].0 == n;
        }
      }
      OccurrencesOfAbsentName(pairs[1..], name);
    }
  }

  lemma NamesAppend(pairs: seq<Pair>, p: Pair)
    ensures Names(pairs + [p]) == Names(pairs) + {p.0}
  {
    var all := pairs + [p];
    forall n | n in Names(all) ensures n in Names(pairs) + {p.0} {
      var i :| 0 <= i < |all| && all[i].0 == n;
      if i < |pairs| { assert pairs[i].0 == n; }
    }
    forall n | n in Names(pairs) ensures n in Names(all) {
      var i :| 0 <= i < |pairs| && pairs[i].0 == n;
      assert all[i].0 == n;
    }
    assert all[|pairs|].0 == p.0;
  }

  /** What the fold's hash says after `pairs`: one key per name, whose flattened value
      is the name's first non-`nil` value, and arrays that start with a non-`nil` value. */
  predicate FoldInvariant(params: map<string, Param>, pairs: seq<Pair>) {
    && params.Keys == Names(pairs)
    && forall k :: k in params ==>
      && Head(params[k]) == FirstValue(Occurrences(pairs, k))
      && (params[k].Multi? ==> params[k].first.Some?)
  }

  /** One step of the fold keeps the invariant for the name it stores. */
  lemma StoreStepAt(params: map<string, Param>, pairs: seq<Pair>, p: Pair)
    requires FoldInvariant(params, pairs)
    ensures var next := Store(params, p);
      && p.0 in next
      && Head(next[p.0]) == FirstValue(Occurrences(pairs + [p], p.0))
      && (next[p.0].Multi? ==> next[p.0].first.Some?)
  {
    var k := p.0;
    var next := Store(params, p);
    var before := Occurrences(pairs, k);
    OccurrencesAppend(pairs, p, k);
    assert Occurrences(pairs + [p], k) == before + [p.1];
    FirstValueAppend(before, p.1);
    if k !in params {
      OccurrencesOfAbsentName(pairs, k);
      assert next[k] == Scalar(p.1);
    } else if Truthy(params[k]) {
      assert FirstValue(before).Some?;
      assert Head(next[k]) == Head(params[k]);
    } else {
      assert FirstValue(before).None?;
      assert next[k] == Scalar(p.1);
    }
  }

  /** One step of the fold leaves every other name as it was. */
  lemma StoreStepOther(params: map<string, Param>, pairs: seq<Pair>, p: Pair, k: string)
    requires k in params && k != p.0
    requires Head(params[k]) == FirstValue(Occurrences(pairs, k))
    ensures k in Store(params, p) && Store(params, p)[k] == params[k]
    ensures Head(params[k]) == FirstValue(Occurrences(pairs + [p], k))
  {
    OccurrencesAppend(pairs, p, k);
    assert Occurrences(pairs + [p], k) == Occurrences(pairs, k);
  }

  /** One step of the fold keeps the invariant. */
  lemma StoreStep(params: map<string, Param>, pairs: seq<Pair>, p: Pair)
    requires FoldInvariant(params, pairs)
    ensures FoldInvariant(Store(params, p), pairs + [p])
  {
    var next := Store(params, p);
    NamesAppend(pairs, p);
    assert next.Keys == params.Keys + {p.0};
    StoreStepAt(params, pairs, p);
    forall k | k in next
      ensures Head(next[k]) == FirstValue(Occurrences(pairs + [p], k))
      ensures next[k].Multi? ==> next[k].first.Some?
    {
      if k != p.0 {
        StoreStepOther(params, pairs, p, k);
      }
    }
  }

  /** The fold keeps, for every name, exactly the first non-`nil` value given to it;
      an array is only ever started from a non-`nil` value. */
  lemma {:induction false} StoreAllFirstValue(pairs: seq<Pair>)
    ensures FoldInvariant(StoreAll(pairs), pairs)
  {
    if pairs != [] {
      var pre, last := pairs[..|pairs| - 1], pairs[|pairs| - 1];
      StoreAllFirstValue(pre);
      StoreStep(StoreAll(pre), pre, last);
      assert StoreAll(pairs) == Store(StoreAll(pre), last);
      assert pre + [last] == pairs;
    }
  }

  /** A name's values, when it occurs exactly once, are that one value. */
  lemma {:induction false} OccurrencesOfUniqueName(pairs: seq<Pair>, i: nat)
    requires i < |pairs|
    requires forall j :: 0 <= j < |pairs| && j != i ==> pairs[j].0 != pairs[i].0
    ensures Occurrences(pairs, pairs[i].0) == [pairs[i].1]
  {
    var name := pairs[i].0;
    if i == 0 {
      assert name !in Names(pairs[1..]) by {
        forall j | 0 <= j < |pairs[1..]| ensures pairs[1..][j].0 != name {
          assert pairs[1..][j] == pairs[j + 1];
        }
      }
      OccurrencesOfAbsentName(pairs[1..], name);
    } else {
      assert pairs[1..][i - 1] == pairs[i];
      OccurrencesOfUniqueName(pairs[1..], i - 1);
    }
  }

  /** The value at the first occurrence of a name with a value comes first among its values. */
  lemma {:induction false} FirstValueAtIndex(pairs: seq<Pair>, i: nat)
    requires i < |pairs| && pairs[i].1.Some?
    requires forall j :: 0 <= j < i && pairs[j].0 == pairs[i].0 ==> pairs[j].1.None?
    ensures FirstValue(Occurrences(pairs, pairs[i].0)) == pairs[i].1
  {
    var name := pairs[i].0;
    var head := if pairs[0].0 == name then [pairs[0].1] else [];
    assert Occurrences(pairs, name) == head + Occurrences(pairs[1..], name);
    if i > 0 {
      assert pairs[1..][i - 1] == pairs[i];
      FirstValueAtIndex(pairs[1..], i - 1);
      assert head == [] || head == [None];
      assert (head + Occurrences(pairs[1..], name))[|head|..] == Occurrences(pairs[1..], name);
    }
  }

  /** A separator as the header may write it: `;` or `,`, then any number of spaces. */
  predicate SeparatorText(sep: string) {
    |sep| >= 1 && sep[0] in Separators && forall k :: 1 <= k < |sep| ==> sep[k] == ' '
  }

  predicate SeparatorTexts(seps: seq<string>) {
    forall i :: 0 <= i < |seps| ==> SeparatorText(seps[i])
  }

  /** The pieces with the separator texts between them. */
  function JoinWith(pieces: seq<string>, seps: seq<string>): string
    requires |pieces| == |seps| + 1
  {
    if seps == [] then pieces[0] else pieces[0] + seps[0] + JoinWith(pieces[1..], seps[1..])
  }

  /** Pieces that `JoinWith` and `Split` agree on: no separators, no leading space after
      the first piece. */
  predicate Joinable(pieces: seq<string>) {
    && |pieces| >= 1
    && (forall i :: 0 <= i < |pieces| ==> NoSeparator(pieces[i]))
    && (forall i :: 1 <= i < |pieces| ==> pieces[i] == [] || pieces[i][0] != ' ')
  }

  /** Skipping the spaces of `spaces + rest` gives `rest` when `rest` starts with no space. */
  lemma {:induction false} SkipLeadingSpaces(spaces: string, rest: string)
    requires forall k :: 0 <= k < |spaces| ==> spaces[k] == ' '
    requires rest == [] || rest[0] != ' '
    ensures SkipSpaces(spaces + rest) == rest
  {
    if spaces != [] {
      assert (spaces + rest)[1..] == spaces[1..] + rest;
      SkipLeadingSpaces(spaces[1..], rest);
    }
  }

  /** In `p + sep + rest`, the first separator is the one `sep` starts with. */
  lemma FirstSeparatorAfter(p: string, sep: string, rest: string)
    requires NoSeparator(p) && SeparatorText(sep)
    ensures FirstIndexOf(p + sep + rest, Separators) == Some(|p|)
  {
    var s := p + sep + rest;
    assert s[|p|] == sep[0];
    assert forall k :: 0 <= k < |p| ==> s[k] == p[k];
  }

  /** A text without separators is a single piece. */
  lemma SplitNoSeparator(p: string)
    requires NoSeparator(p)
    ensures Split(p) == [p]
  {
    assert FirstIndexOf(p, Separators) == None;
  }

  /** Unfolding `Split` and `Separated` at the first separator. */
  lemma SplitAt(s: string, i: nat)
    requires FirstIndexOf(s, Separators) == Some(i)
    ensures Split(s) == [s[..i]] + Split(SkipSpaces(s[i + 1..]))
    ensures Separated(s) == [SeparatorFrom(s, i)] + Separated(SkipSpaces(s[i + 1..]))
  {
  }

  /** Splitting `p + sep + rest` yields `p`, then the pieces of `rest`; `sep` is the
      separator text cut out. */
  lemma SplitCons(p: string, sep: string, rest: string)
    requires NoSeparator(p) && SeparatorText(sep)
    requires rest == [] || rest[0] != ' '
    ensures Split(p + sep + rest) == [p] + Split(rest)
    ensures Separated(p + sep + rest) == [sep] + Separated(rest)
  {
    var s := p + sep + rest;
    FirstSeparatorAfter(p, sep, rest);
    assert s[..|p|] == p;
    assert s[|p| + 1..] == sep[1..] + rest;
    SkipLeadingSpaces(sep[1..], rest);
    assert SeparatorFrom(s, |p|) == sep;
    SplitAt(s, |p|);
  }

  lemma JoinableTail(pieces: seq<string>)
    requires Joinable(pieces) && |pieces| > 1
    ensures Joinable(pieces[1..])
    ensures NoSeparator(pieces[0])
    ensures pieces[1] == [] || pieces[1][0] != ' '
  {
    forall i | 0 <= i < |pieces[1..]| ensures NoSeparator(pieces[1..][i]) {
      assert pieces[1..][i] == pieces[i + 1];
    }
    forall i | 1 <= i < |pieces[1..]| ensures pieces[1..][i] == [] || pieces[1..][i][0] != ' ' {
      assert pieces[1..][i] == pieces[i + 1];
    }
  }

  lemma JoinableCons(p: string, tail: seq<string>)
    requires NoSeparator(p) && Joinable(tail)
    requires tail[0] == [] || tail[0][0] != ' '
    ensures Joinable([p] + tail)
  {
    var all := [p] + tail;
    forall i | 1 <= i < |all| ensures NoSeparator(all[i]) && (all[i] == [] || all[i][0] != ' ') {
      assert all[i] == tail[i - 1];
    }
  }

  /** A joined text starts with a space only if its first piece does. */
  lemma JoinStart(pieces: seq<string>, seps: seq<string>)
    requires |pieces| == |seps| + 1 && SeparatorTexts(seps)
    requires pieces[0] == [] || pieces[0][0] != ' '
    ensures JoinWith(pieces, seps) == [] || JoinWith(pieces, seps)[0] != ' '
  {
    if seps != [] {
      var s := pieces[0] + seps[0] + JoinWith(pieces[1..], seps[1..]);
      assert SeparatorText(seps[0]);
      assert s[0] == if pieces[0] == [] then seps[0][0] else pieces[0][0];
    }
  }

  /** Joining pieces with separator texts and splitting again gives back both the pieces
      and the separators, as long as no piece holds a separator and no later piece starts
      with a space. */
  lemma {:induction false} SplitJoin(pieces: seq<string>, seps: seq<string>)
    requires Joinable(pieces) && |pieces| == |seps| + 1 && SeparatorTexts(seps)
    ensures Split(JoinWith(pieces, seps)) == pieces
    ensures Separated(JoinWith(pieces, seps)) == seps
  {
    if seps == [] {
      assert FirstIndexOf(pieces[0], Separators) == None;
    } else {
      JoinableTail(pieces);
      var tail := pieces[1..];
      var rest := JoinWith(tail, seps[1..]);
      assert SeparatorTexts(seps[1..]) by {
        forall i | 0 <= i < |seps[1..]| ensures SeparatorText(seps[1..][i]) {
          assert seps[1..][i] == seps[i + 1];
        }
      }
      assert SeparatorText(seps[0]);
      JoinStart(tail, seps[1..]);
      SplitCons(pieces[0], seps[0], rest);
      SplitJoin(tail, seps[1..]);
      assert pieces == [pieces[0]] + tail;
      assert seps == [seps[0]] + seps[1..];
    }
  }

  /** At the first separator, the text is the piece before it, the separator text, and
      what follows the spaces after it. */
  lemma SeparatorAt(s: string, i: nat)
    requires FirstIndexOf(s, Separators) == Some(i)
    ensures var rest := SkipSpaces(s[i + 1..]);
      && SeparatorText(SeparatorFrom(s, i))
      && s == s[..i] + SeparatorFrom(s, i) + rest
      && (rest == [] || rest[0] != ' ')
  {
    var rest := SkipSpaces(s[i + 1..]);
    var sep := SeparatorFrom(s, i);
    SkipSpacesSpec(s[i + 1..]);
    forall k | 1 <= k < |sep| ensures sep[k] == ' ' {
      assert sep[k] == s[i + 1..][k - 1];
    }
    assert rest == s[|s| - |rest|..];
    assert s == s[..i] + sep + rest;
  }

  lemma SeparatorTextsCons(sep: string, seps: seq<string>)
    requires SeparatorText(sep) && SeparatorTexts(seps)
    ensures SeparatorTexts([sep] + seps)
  {
    forall j | 1 <= j < |seps| + 1 ensures SeparatorText(([sep] + seps)[j]) {
      assert ([sep] + seps)[j] == seps[j - 1];
    }
  }

  /** Conversely, every text is its pieces joined with the separator texts `Split` cut
      out of it, and those pieces are joinable: `Split` is the one decomposition of the
      text that `SplitJoin` inverts. */
  lemma {:induction false} JoinSplit(s: string)
    ensures |Separated(s)| + 1 == |Split(s)|
    ensures Joinable(Split(s))
    ensures SeparatorTexts(Separated(s))
    ensures JoinWith(Split(s), Separated(s)) == s
    decreases |s|
  {
    var first := FirstIndexOf(s, Separators);
    if first.None? {
      assert Split(s) == [s] && Separated(s) == [];
    } else {
      var i := first.value;
      var rest := SkipSpaces(s[i + 1..]);
      var sep := SeparatorFrom(s, i);
      SplitAt(s, i);
      SeparatorAt(s, i);
      JoinSplit(rest);
      var seps := [sep] + Separated(rest);
      assert Separated(s) == seps;
      SeparatorTextsCons(sep, Separated(rest));
      var head := Split(rest)[0];
      assert head == [] || head[0] != ' ' by {
        if head != [] { assert head[0] == rest[0]; }
      }
      JoinableCons(s[..i], Split(rest));
      assert JoinWith(Split(s), seps) == s[..i] + sep + JoinWith(Split(rest), Separated(rest));
    }
  }

  /** `SplitPair` undoes `name=value` when the name holds no `=`. */
  lemma SplitPairOfAssignment(name: string, value: string)
    requires '=' !in name
    ensures SplitPair(name + "=" + value) == (name, Some(value))
  {
    var piece := name + "=" + value;
    assert piece[|name|] == '=';
    assert piece[..|name|] == name && piece[|name| + 1..] == value;
    assert piece[|name|] in {'='};
    assert forall k :: 0 <= k < |name| ==> piece[k] == name[k];
  }
}
