/** Parsing "key=value" lists from annotations, with backslash escapes. */
module AnnotationParser {
  import opened Options
  import opened Text

  // ---------------------------------------------------------------- splitting into pairs

  /** The pieces produced from the unread text, when `current` is the piece being collected. */
  function Pieces(rest: string, current: string): seq<string>
    decreases |rest|
  {
    if rest == "" then if current == "" then [] else [TrimSpace(current)]
    else if rest[0] == '\\' && |rest| > 1 then Pieces(rest[2..], current + [rest[1]])
    else if rest[0] == ',' then
      var remaining := TrimSpace(rest[1..]);
      if '=' in remaining then [TrimSpace(current)] + Pieces(rest[1..], "")
      else if remaining != "" then [TrimSpace(current), remaining]
      else Pieces(rest[1..], current + ",")
    else Pieces(rest[1..], current + [rest[0]])
  }

  method SplitKeyValuePairs(s: string) returns (result: seq<string>)
    ensures result == Pieces(s, "")
  {
    result := [];
    var current := "";
    var i := 0;
    while i < |s|
      invariant 0 <= i <= |s|
      invariant Pieces(s, "") == result + Pieces(s[i..], current)
    {
      var rest := s[i..];
      assert rest[1..] == s[i + 1..];
      if s[i] == '\\' && i + 1 < |s| {
        assert rest[2..] == s[i + 2..];
        current := current + [s[i + 1]];
        i := i + 1;
      } else if s[i] == ',' {
        var remaining := TrimSpace(s[i + 1..]);
        if '=' in remaining {
          result := result + [TrimSpace(current)];
          current := "";
        } else if |remaining| > 0 {
          result := result + [TrimSpace(current)];
          result := result + [remaining];
          return;
        } else {
          current := current + [s[i]];
        }
      } else {
        current := current + [s[i]];
      }
      i := i + 1;
    }
    if |current| > 0 {
      result := result + [TrimSpace(current)];
    }
  }

  // ---------------------------------------------------------------- parsing the map

  datatype Parsed = Absent | Malformed | Present(values: map<string, string>)

  /** Index of the first '=', or the length if there is none. */
  function FirstEquals(s: string): (k: nat)
    ensures k <= |s| && '=' !in s[..k] && (k < |s| ==> s[k] == '=')
  {
    if s == "" || s[0] == '=' then 0
    else
      var k := FirstEquals(s[1..]) + 1;
      assert s[..k] == [s[0]] + s[1..][..k - 1];
      k
  }

  function PairKey(pair: string): string {
    TrimSpace(pair[..FirstEquals(pair)])
  }

  function PairValue(pair: string): string
    requires FirstEquals(pair) < |pair|
  {
    TrimSpace(pair[FirstEquals(pair) + 1..])
  }

  predicate IsPair(pair: string) {
    FirstEquals(pair) < |pair| && PairKey(pair) != ""
  }

  function MapFrom(pairs: seq<string>, acc: map<string, string>): Parsed
    decreases pairs
  {
    if pairs == [] then Present(acc)
    else if !IsPair(pairs[0]) then Malformed
    else MapFrom(pairs[1..], acc[PairKey(pairs[0]) := PairValue(pairs[0])])
  }

  function Parse(raw: string): Parsed {
    MapFrom(Pieces(raw, ""), map[])
  }

  /** The annotation keys that are tried, in order. */
  function AnnotationKeys(prefix: string, suffix: string, exact: bool, alternatives: seq<string>): seq<string> {
    if exact then [suffix]
    else [prefix + "/" + suffix] + seq(|alternatives|, i requires 0 <= i < |alternatives| => alternatives[i] + "/" + suffix)
  }

  /** `buildAnnotationKeys`. */
  method BuildAnnotationKeys(prefix: string, suffix: string, exact: bool, alternatives: seq<string>) returns (keys: seq<string>)
    ensures keys == AnnotationKeys(prefix, suffix, exact, alternatives)
  {
    keys := [];
    if exact {
      keys := keys + [suffix];
    } else {
      keys := keys + [prefix + "/" + suffix];
      for i := 0 to |alternatives|
        invariant keys == AnnotationKeys(prefix, suffix, false, alternatives[..i])
      {
        keys := keys + [alternatives[i] + "/" + suffix];
      }
      assert alternatives[..|alternatives|] == alternatives;
    }
  }

  /** The first of the keys that is set decides; without any the annotation is absent. */
  method ParseStringMapAnnotation(prefix: string, suffix: string, exact: bool, alternatives: seq<string>, annotations: map<string, string>)
    returns (parsed: Parsed)
    ensures var keys := AnnotationKeys(prefix, suffix, exact, alternatives);
            && ((forall k :: k in keys ==> k !in annotations) ==> parsed == Absent)
            && forall i :: 0 <= i < |keys| && keys[i] in annotations && (forall j :: 0 <= j < i ==> keys[j] !in annotations) ==>
                 parsed == Parse(annotations[keys[i]])
  {
    var keys := BuildAnnotationKeys(prefix, suffix, exact, alternatives);
    var raw := None;
    for i := 0 to |keys|
      invariant raw.None? && forall j :: 0 <= j < i ==> keys[j] !in annotations
    {
      if keys[i] in annotations {
        raw := Some(annotations[keys[i]]);
        break;
      }
    }
    if raw.None? {
      return Absent;
    }
    parsed := ParsePairs(raw.value);
  }

  method ParsePairs(raw: string) returns (parsed: Parsed)
    ensures parsed == Parse(raw)
  {
    var pairs := SplitKeyValuePairs(raw);
    var keyValues: map<string, string> := map[];
    for n := 0 to |pairs|
      invariant MapFrom(pairs, map[]) == MapFrom(pairs[n..], keyValues)
    {
      var pair := pairs[n];
      assert pairs[n..] == [pair] + pairs[n + 1..];
      var split := FirstEquals(pair);
      if split == |pair| {
        return Malformed;
      }
      var key := TrimSpace(pair[..split]);
      var value := TrimSpace(pair[split + 1..]);
      if |key| == 0 {
        return Malformed;
      }
      keyValues := keyValues[key := value];
    }
    parsed := Present(keyValues);
  }

  // ---------------------------------------------------------------- printing

  /** Backslash-escapes commas and backslashes. */
  function Escape(s: string): string {
    if s == "" then ""
    else (if s[0] == ',' || s[0] == '\\' then ['\\', s[0]] else [s[0]]) + Escape(s[1..])
  }

  function PairText(p: (string, string)): string {
    p.0 + "=" + p.1
  }

  function Print(pairs: seq<(string, string)>): string {
    if pairs == [] then ""
    else if |pairs| == 1 then Escape(PairText(pairs[0]))
    else Escape(PairText(pairs[0])) + "," + Print(pairs[1..])
  }

  predicate Printable(p: (string, string)) {
    p.0 != "" && Trimmed(p.0) && '=' !in p.0 && Trimmed(p.1)
  }

  /** The map a list of pairs denotes; a later pair for a key replaces an earlier one. */
  function MapOf(pairs: seq<(string, string)>, acc: map<string, string>): map<string, string>
    decreases pairs
  {
    if pairs == [] then acc else MapOf(pairs[1..], acc[pairs[0].0 := pairs[0].1])
  }

  lemma EscapedCharIsCollected(c: char, rest: string, current: string)
    requires c == ',' || c == '\\'
    ensures Pieces(['\\', c] + rest, current) == Pieces(rest, current + [c])
  {
    var s := ['\\', c] + rest;
    assert s[1] == c && s[2..] == rest;
  }

  lemma PlainCharIsCollected(c: char, rest: string, current: string)
    requires c != ',' && c != '\\'
    ensures Pieces([c] + rest, current) == Pieces(rest, current + [c])
  {
    var s := [c] + rest;
    assert s[1..] == rest;
  }

  lemma {:induction false} EscapedTextIsCollected(t: string, rest: string, current: string)
    ensures Pieces(Escape(t) + rest, current) == Pieces(rest, current + t)
    decreases |t|
  {
    if t == "" {
      assert Escape(t) + rest == rest && current + t == current;
    } else {
      var more := Escape(t[1..]) + rest;
      EscapedTextIsCollected(t[1..], rest, current + [t[0]]);
      assert current + [t[0]] + t[1..] == current + t;
      if t[0] == ',' || t[0] == '\\' {
        assert Escape(t) + rest == ['\\', t[0]] + more;
        EscapedCharIsCollected(t[0], more, current);
      } else {
        assert Escape(t) + rest == [t[0]] + more;
        PlainCharIsCollected(t[0], more, current);
      }
    }
  }

  lemma TrimmedIsFixed(s: string)
    requires Trimmed(s)
    ensures TrimSpace(s) == s
  {
  }

  lemma {:induction false} TrimKeepsEquals(s: string)
    requires '=' in s
    ensures '=' in TrimSpace(s)
    decreases |s|
  {
    if IsSpace(s[0]) {
      assert s == [s[0]] + s[1..];
      TrimKeepsEquals(s[1..]);
    } else {
      TrimRightKeepsEquals(s);
    }
  }

  lemma {:induction false} TrimRightKeepsEquals(s: string)
    requires '=' in s
    ensures '=' in TrimRight(s)
    decreases |s|
  {
    if IsSpace(s[|s| - 1]) {
      assert s == s[..|s| - 1] + [s[|s| - 1]];
      TrimRightKeepsEquals(s[..|s| - 1]);
    }
  }

  lemma {:induction false} EscapeKeepsEquals(t: string)
    requires '=' in t
    ensures '=' in Escape(t)
  {
    if t[0] != '=' {
      assert t == [t[0]] + t[1..];
      EscapeKeepsEquals(t[1..]);
    }
  }

  lemma PrintHasEquals(pairs: seq<(string, string)>)
    requires pairs != []
    ensures '=' in Print(pairs)
  {
    var t := PairText(pairs[0]);
    assert t[|pairs[0].0|] == '=';
    EscapeKeepsEquals(t);
  }

  function Texts(pairs: seq<(string, string)>): seq<string> {
    if pairs == [] then [] else [PairText(pairs[0])] + Texts(pairs[1..])
  }

  /** A comma followed by text with an equals sign ends the current piece. */
  lemma CommaEndsPiece(more: string, t: string)
    requires '=' in more && Trimmed(t)
    ensures Pieces("," + more, t) == [t] + Pieces(more, "")
  {
    var s := "," + more;
    assert s[1..] == more;
    TrimKeepsEquals(more);
    TrimmedIsFixed(t);
  }

  lemma LastPiece(t: string)
    requires t != "" && Trimmed(t)
    ensures Pieces(Escape(t), "") == [t]
  {
    EscapedTextIsCollected(t, "", "");
    assert Escape(t) + "" == Escape(t) && "" + t == t;
    TrimmedIsFixed(t);
  }

  lemma PairTextTrimmed(p: (string, string))
    requires Printable(p)
    ensures PairText(p) != "" && Trimmed(PairText(p))
  {
  }

  /** Splitting recovers the unescaped pair texts, whatever commas and backslashes they hold. */
  lemma {:induction false} SplitUndoesPrint(pairs: seq<(string, string)>)
    requires forall p :: p in pairs ==> Printable(p)
    ensures Pieces(Print(pairs), "") == Texts(pairs)
  {
    if pairs != [] {
      var t := PairText(pairs[0]);
      PairTextTrimmed(pairs[0]);
      if |pairs| == 1 {
        LastPiece(t);
        assert Texts(pairs) == [t];
      } else {
        var more := Print(pairs[1..]);
        EscapedTextIsCollected(t, "," + more, "");
        assert Escape(t) + ("," + more) == Escape(t) + "," + more && "" + t == t;
        PrintHasEquals(pairs[1..]);
        CommaEndsPiece(more, t);
        SplitUndoesPrint(pairs[1..]);
      }
    }
  }

  lemma PairTextParses(p: (string, string))
    requires Printable(p)
    ensures IsPair(PairText(p)) && PairKey(PairText(p)) == p.0 && PairValue(PairText(p)) == p.1
  {
    var t := PairText(p);
    var k := FirstEquals(t);
    assert t[|p.0|] == '=';
    assert t[..k] == p.0 && t[k + 1..] == p.1;
    TrimmedIsFixed(p.0);
    TrimmedIsFixed(p.1);
  }

  lemma {:induction false} TextsParse(pairs: seq<(string, string)>, acc: map<string, string>)
    requires forall p :: p in pairs ==> Printable(p)
    ensures MapFrom(Texts(pairs), acc) == Present(MapOf(pairs, acc))
    decreases pairs
  {
    if pairs != [] {
      PairTextParses(pairs[0]);
      assert Texts(pairs)[1..] == Texts(pairs[1..]);
      TextsParse(pairs[1..], acc[pairs[0].0 := pairs[0].1]);
    }
  }

  /** Round trip: parsing the printed form of any printable pairs returns the map they denote. */
  lemma ParseUndoesPrint(pairs: seq<(string, string)>)
    requires forall p :: p in pairs ==> Printable(p)
    ensures Parse(Print(pairs)) == Present(MapOf(pairs, map[]))
  {
    SplitUndoesPrint(pairs);
    TextsParse(pairs, map[]);
  }

  /** With distinct keys the denoted map holds exactly the listed pairs. */
  lemma {:induction false} MapOfDistinct(pairs: seq<(string, string)>, acc: map<string, string>, k: string)
    requires DistinctKeys(pairs)
    ensures forall p :: p in pairs ==> p.0 in MapOf(pairs, acc) && MapOf(pairs, acc)[p.0] == p.1
    ensures (forall p :: p in pairs ==> p.0 != k) ==>
              (k in MapOf(pairs, acc) <==> k in acc) && (k in acc ==> MapOf(pairs, acc)[k] == acc[k])
    decreases pairs
  {
    if pairs != [] {
      var acc' := acc[pairs[0].0 := pairs[0].1];
      MapOfDistinct(pairs[1..], acc', k);
      MapOfDistinct(pairs[1..], acc', pairs[0].0);
      assert pairs == [pairs[0]] + pairs[1..];
    }
  }

  lemma {:induction false} TrimSpaceTrims(s: string)
    ensures Trimmed(TrimSpace(s))
    ensures forall c :: c in TrimSpace(s) ==> c in s
    decreases |s|
  {
    if s != "" && IsSpace(s[0]) {
      TrimSpaceTrims(s[1..]);
    } else {
      TrimRightTrims(s);
    }
  }

  lemma {:induction false} TrimRightTrims(s: string)
    requires s != "" ==> !IsSpace(s[0])
    ensures Trimmed(TrimRight(s)) && forall c :: c in TrimRight(s) ==> c in s
    decreases |s|
  {
    if s != "" && IsSpace(s[|s| - 1]) {
      TrimRightTrims(s[..|s| - 1]);
    }
  }

  lemma {:induction false} ParsedPairsArePrintable(pairs: seq<string>, acc: map<string, string>)
    requires MapFrom(pairs, acc).Present? && forall k :: k in acc ==> Printable((k, acc[k]))
    ensures forall k :: k in MapFrom(pairs, acc).values ==> Printable((k, MapFrom(pairs, acc).values[k]))
    decreases pairs
  {
    if pairs != [] {
      var pair := pairs[0];
      TrimSpaceTrims(pair[..FirstEquals(pair)]);
      TrimSpaceTrims(pair[FirstEquals(pair) + 1..]);
      ParsedPairsArePrintable(pairs[1..], acc[PairKey(pair) := PairValue(pair)]);
    }
  }

  /** Conversely every parsed entry is printable. */
  lemma ParseReturnsPrintable(raw: string, k: string)
    requires Parse(raw).Present? && k in Parse(raw).values
    ensures Printable((k, Parse(raw).values[k]))
  {
    ParsedPairsArePrintable(Pieces(raw, ""), map[]);
  }

  predicate DistinctKeys(pairs: seq<(string, string)>) {
    forall i, j :: 0 <= i < j < |pairs| ==> pairs[i].0 != pairs[j].0
  }

  lemma {:induction false} MapOfSnoc(pairs: seq<(string, string)>, p: (string, string), acc: map<string, string>)
    ensures MapOf(pairs + [p], acc) == MapOf(pairs, acc)[p.0 := p.1]
    decreases pairs
  {
    if pairs == [] {
      assert pairs + [p] == [p];
    } else {
      MapOfSnoc(pairs[1..], p, acc[pairs[0].0 := pairs[0].1]);
      assert (pairs + [p])[1..] == pairs[1..] + [p];
    }
  }

  /** Every map is denoted by a list of its entries. */
  lemma {:induction false} PairsOf(m: map<string, string>) returns (pairs: seq<(string, string)>)
    ensures MapOf(pairs, map[]) == m && DistinctKeys(pairs)
    ensures forall p :: p in pairs ==> p.0 in m && m[p.0] == p.1
    decreases |m|
  {
    pairs := [];
    if k :| k in m {
      var rest := m - {k};
      assert |rest| < |m| by {
        assert rest.Keys == m.Keys - {k} && |rest.Keys| == |rest| && |m.Keys| == |m|;
      }
      var before := PairsOf(rest);
      MapOfSnoc(before, (k, m[k]), map[]);
      pairs := before + [(k, m[k])];
      assert rest[k := m[k]] == m;
      forall i | 0 <= i < |before| ensures before[i].0 != k {
        assert before[i] in before;
      }
    }
  }

  /** So the maps the parser can return are exactly those of printable pairs: whatever text parses,
      some printable pairs with distinct keys print to a text that parses to the same map. */
  lemma EveryParsedMapIsPrinted(raw: string) returns (pairs: seq<(string, string)>)
    requires Parse(raw).Present?
    ensures (forall p :: p in pairs ==> Printable(p)) && DistinctKeys(pairs) && Parse(Print(pairs)) == Parse(raw)
  {
    pairs := PairsOf(Parse(raw).values);
    forall p | p in pairs ensures Printable(p) {
      ParseReturnsPrintable(raw, p.0);
    }
    ParseUndoesPrint(pairs);
  }
}
