/** Which texts the "key=value" parser accepts, and what it reads from them. */
module AnnotationSyntax {
  import opened AnnotationParser
  import opened Text

  predicate Blank(s: string) {
    forall c :: c in s ==> IsSpace(c)
  }

  lemma TrimSpaceOfBlank(s: string)
    ensures TrimSpace(s) == "" <==> Blank(s)
  {
    var left, right := TrimSpaceMeaning(s);
    TrimSpaceTrims(s);
    var t := TrimSpace(s);
    assert t != "" ==> t[0] in t && !IsSpace(t[0]);
  }

  // ---------------------------------------------------------------- pieces

  /** The piece has no equals sign, or nothing but white space before the first one. */
  ghost predicate Bad(piece: string) {
    '=' !in piece || exists k :: 0 <= k < |piece| && piece[k] == '=' && '=' !in piece[..k] && Blank(piece[..k])
  }

  lemma BadExactlyWhen(piece: string)
    ensures Bad(piece) <==> !IsPair(piece)
  {
    var k := FirstEquals(piece);
    TrimSpaceOfBlank(piece[..k]);
    assert k == |piece| ==> piece[..k] == piece;
    forall j | 0 <= j < |piece| && piece[j] == '=' && '=' !in piece[..j] ensures j == k {
      FirstEqualsIs(piece, j);
    }
  }

  lemma {:induction false} FirstEqualsIs(s: string, k: nat)
    requires k < |s| && s[k] == '=' && '=' !in s[..k]
    ensures FirstEquals(s) == k
  {
    if k > 0 {
      assert s[..k] == [s[0]] + s[1..][..k - 1];
      FirstEqualsIs(s[1..], k - 1);
    }
  }

  lemma {:induction false} MapFromFails(pairs: seq<string>, acc: map<string, string>)
    ensures MapFrom(pairs, acc) == Malformed <==> exists p :: p in pairs && Bad(p)
    ensures MapFrom(pairs, acc) != Absent
    decreases pairs
  {
    if pairs != [] {
      assert pairs == [pairs[0]] + pairs[1..];
      BadExactlyWhen(pairs[0]);
      if IsPair(pairs[0]) {
        MapFromFails(pairs[1..], acc[PairKey(pairs[0]) := PairValue(pairs[0])]);
      }
    }
  }

  /** A text is malformed iff one of its pieces is bad. */
  lemma MalformedExactlyWhen(raw: string)
    ensures Parse(raw) == Malformed <==> exists p :: p in Pieces(raw, "") && Bad(p)
    ensures Parse(raw) != Absent
  {
    MapFromFails(Pieces(raw, ""), map[]);
  }

  /** Piece i is the last with this key. */
  predicate LastWithKey(pieces: seq<string>, i: nat, key: string) {
    i < |pieces| && PairKey(pieces[i]) == key && forall j :: i < j < |pieces| ==> PairKey(pieces[j]) != key
  }

  lemma {:induction false} MapFromGives(pairs: seq<string>, acc: map<string, string>, key: string)
    requires MapFrom(pairs, acc).Present?
    ensures forall i: nat :: LastWithKey(pairs, i, key) ==>
              IsPair(pairs[i]) && key in MapFrom(pairs, acc).values && MapFrom(pairs, acc).values[key] == PairValue(pairs[i])
    ensures (forall i: nat :: !LastWithKey(pairs, i, key)) ==>
              (key in MapFrom(pairs, acc).values <==> key in acc) && (key in acc ==> MapFrom(pairs, acc).values[key] == acc[key])
    decreases pairs
  {
    if pairs != [] {
      var next := acc[PairKey(pairs[0]) := PairValue(pairs[0])];
      MapFromGives(pairs[1..], next, key);
      forall i: nat ensures LastWithKey(pairs[1..], i, key) <==> LastWithKey(pairs, i + 1, key) {
        assert forall j :: i < j < |pairs[1..]| ==> pairs[1..][j] == pairs[j + 1];
      }
      if LastWithKey(pairs, 0, key) {
        assert forall i: nat :: !LastWithKey(pairs[1..], i, key);
      } else if PairKey(pairs[0]) == key {
        SomeLast(pairs[1..], key);
      }
    }
  }

  lemma {:induction false} SomeLast(pairs: seq<string>, key: string)
    requires exists j :: 0 <= j < |pairs| && PairKey(pairs[j]) == key
    ensures exists i: nat :: LastWithKey(pairs, i, key)
  {
    var n := |pairs| - 1;
    if PairKey(pairs[n]) == key {
      assert LastWithKey(pairs, n, key);
    } else {
      SomeLast(pairs[..n], key);
      var i: nat :| LastWithKey(pairs[..n], i, key);
      assert LastWithKey(pairs, i, key);
    }
  }

  /** A text that parses gives a key the value of the last piece with that key, and has no other keys. */
  lemma LastPieceGives(raw: string, pieces: seq<string>, key: string)
    requires Parse(raw).Present? && pieces == Pieces(raw, "")
    ensures key in Parse(raw).values <==> exists i: nat :: LastWithKey(pieces, i, key)
    ensures forall i: nat :: LastWithKey(pieces, i, key) ==> IsPair(pieces[i]) && Parse(raw).values[key] == PairValue(pieces[i])
  {
    MapFromGives(pieces, map[], key);
  }

  // ---------------------------------------------------------------- texts without backslashes

  lemma {:induction false} PlainTextIsCollected(t: string, rest: string, current: string)
    requires ',' !in t && '\\' !in t
    ensures Pieces(t + rest, current) == Pieces(rest, current + t)
    decreases |t|
  {
    if t == "" {
      assert t + rest == rest && current + t == current;
    } else {
      assert t == [t[0]] + t[1..] && t + rest == [t[0]] + (t[1..] + rest);
      PlainCharIsCollected(t[0], t[1..] + rest, current);
      PlainTextIsCollected(t[1..], rest, current + [t[0]]);
      assert current + [t[0]] + t[1..] == current + t;
    }
  }

  lemma OnePiece(t: string, current: string)
    requires ',' !in t && '\\' !in t && current + t != ""
    ensures Pieces(t, current) == [TrimSpace(current + t)]
  {
    PlainTextIsCollected(t, "", current);
    assert t + "" == t;
  }

  lemma CommaDecides(tail: string, current: string)
    ensures Pieces("," + tail, current) ==
              if '=' in TrimSpace(tail) then [TrimSpace(current)] + Pieces(tail, "")
              else if TrimSpace(tail) != "" then [TrimSpace(current), TrimSpace(tail)]
              else Pieces(tail, current + ",")
  {
    var s := "," + tail;
    assert s[1..] == tail;
  }

  lemma EqualsInTrimmed(s: string)
    ensures '=' in TrimSpace(s) <==> '=' in s
  {
    if '=' in s {
      TrimKeepsEquals(s);
    }
    TrimSpaceTrims(s);
  }

  lemma BadTrimmed(s: string)
    ensures Bad(TrimSpace(s)) <==> Bad(s)
  {
    EqualsInTrimmed(s);
    if '=' in s {
      var left, right := TrimSpaceMeaning(s);
      var t := TrimSpace(s);
      var k := FirstEquals(t);
      FirstEqualsFound(t);
      assert s[|left| + k] == '=' && s[..|left| + k] == left + t[..k];
      assert Blank(s[..|left| + k]) <==> Blank(t[..k]);
      assert !IsSpace('=') && '=' !in left;
      OnlyFirstEquals(s, |left| + k);
      OnlyFirstEquals(t, k);
    }
  }

  lemma OnlyFirstEquals(s: string, k: nat)
    requires k < |s| && s[k] == '=' && '=' !in s[..k]
    ensures Bad(s) <==> Blank(s[..k])
  {
    assert s[k] in s;
    FirstEqualsIs(s, k);
    forall j | 0 <= j < |s| && s[j] == '=' && '=' !in s[..j] ensures j == k {
      FirstEqualsIs(s, j);
    }
  }

  lemma FirstEqualsFound(s: string)
    requires '=' in s
    ensures FirstEquals(s) < |s|
  {
    assert s[..|s|] == s;
  }

  /** What follows the key and the equals sign does not matter. */
  lemma BadExtended(head: string, more: string)
    requires '=' !in more
    ensures Bad(head + more) <==> Bad(head)
  {
    if '=' in head {
      FirstEqualsFound(head);
      var k := FirstEquals(head);
      assert (head + more)[..k] == head[..k] && (head + more)[k] == '=';
      OnlyFirstEquals(head, k);
      OnlyFirstEquals(head + more, k);
    }
  }

  ghost predicate NoneBad(parts: seq<string>) {
    forall p :: p in parts ==> !Bad(p)
  }

  /** Every part between commas is a pair, except that a blank part may end the text after one comma. */
  ghost predicate WellFormed(parts: seq<string>) {
    NoneBad(parts) || (|parts| >= 2 && Blank(parts[|parts| - 1]) && NoneBad(parts[..|parts| - 1]))
  }

  lemma NoneBadCons(head: string, parts: seq<string>)
    ensures NoneBad([head] + parts) <==> !Bad(head) && NoneBad(parts)
  {
    assert forall p :: p in [head] + parts <==> p == head || p in parts;
  }

  lemma ConsWellFormed(head: string, parts: seq<string>)
    requires parts != [] && exists p :: p in parts && '=' in p
    ensures WellFormed([head] + parts) <==> !Bad(head) && WellFormed(parts)
  {
    var all, n := [head] + parts, |parts|;
    NoneBadCons(head, parts);
    NoneBadCons(head, parts[..n - 1]);
    assert all[..n] == [head] + parts[..n - 1] && all[n] == parts[n - 1];
    if n == 1 {
      var p :| p in parts && '=' in p;
      assert p == parts[0] && !IsSpace('=') && !Blank(parts[0]);
    }
  }

  lemma {:induction false} PartsOfText(s: string)
    ensures ('=' in s <==> exists p :: p in Split(s, ',') && '=' in p)
    ensures |Split(s, ',')| > 0
  {
    if s != "" {
      PartsOfText(s[1..]);
      assert s == [s[0]] + s[1..];
      var rest := Split(s[1..], ',');
      if s[0] == ',' {
        assert Split(s, ',') == [""] + rest;
        assert forall p :: p in Split(s, ',') <==> p == "" || p in rest;
      } else {
        var first := [s[0]] + rest[0];
        assert Split(s, ',') == [first] + rest[1..] && rest == [rest[0]] + rest[1..];
        assert forall p :: p in Split(s, ',') <==> p == first || p in rest[1..];
        assert forall p :: p in rest <==> p == rest[0] || p in rest[1..];
        assert '=' in first <==> s[0] == '=' || '=' in rest[0];
        assert first in Split(s, ',');
      }
    }
  }

  lemma {:induction false} FirstComma(s: string) returns (head: string, tail: string)
    requires ',' in s
    ensures s == head + "," + tail && ',' !in head
  {
    if s[0] == ',' {
      head, tail := "", s[1..];
    } else {
      assert s == [s[0]] + s[1..];
      head, tail := FirstComma(s[1..]);
      head := [s[0]] + head;
    }
  }

  ghost predicate AnyBad(pieces: seq<string>) {
    exists p :: p in pieces && Bad(p)
  }

  lemma AnyBadCons(p: string, pieces: seq<string>)
    ensures AnyBad([p] + pieces) <==> Bad(p) || AnyBad(pieces)
  {
    assert forall x :: x in [p] + pieces <==> x == p || x in pieces;
  }

  lemma CommaBeforePair(head: string, tail: string)
    requires '=' in tail && (AnyBad(Pieces(tail, "")) <==> !WellFormed(Split(tail, ',')))
    ensures AnyBad(Pieces("," + tail, head)) <==> !WellFormed([head] + Split(tail, ','))
  {
    CommaDecides(tail, head);
    EqualsInTrimmed(tail);
    PartsOfText(tail);
    BadTrimmed(head);
    ConsWellFormed(head, Split(tail, ','));
    AnyBadCons(TrimSpace(head), Pieces(tail, ""));
  }

  lemma CommaBeforeOther(head: string, tail: string)
    requires '=' !in tail && !Blank(tail)
    ensures AnyBad(Pieces("," + tail, head)) && !WellFormed([head] + Split(tail, ','))
  {
    CommaDecides(tail, head);
    EqualsInTrimmed(tail);
    TrimSpaceOfBlank(tail);
    NoEqualsNotWellFormed(head, tail);
    AnyBadCons(TrimSpace(head), [TrimSpace(tail)]);
    assert [TrimSpace(head)] + [TrimSpace(tail)] == [TrimSpace(head), TrimSpace(tail)];
    assert TrimSpace(tail) in [TrimSpace(tail)];
  }

  lemma BlankHasNo(tail: string)
    requires Blank(tail)
    ensures '=' !in tail && ',' !in tail && '\\' !in tail
  {
    assert !IsSpace('=') && !IsSpace(',') && !IsSpace('\\');
  }

  lemma BlankEnds(head: string, tail: string)
    requires Blank(tail) && '=' !in tail
    ensures WellFormed([head] + [tail]) <==> !Bad(head)
  {
    var parts := [head] + [tail];
    assert parts[1] == tail && tail in parts && Bad(tail);
    assert parts[..1] == [head] + [];
    NoneBadCons(head, []);
  }

  lemma CommaBeforeBlank(head: string, tail: string)
    requires Blank(tail)
    ensures AnyBad(Pieces("," + tail, head)) <==> !WellFormed([head] + Split(tail, ','))
  {
    BlankHasNo(tail);
    CommaDecides(tail, head);
    EqualsInTrimmed(tail);
    TrimSpaceOfBlank(tail);
    SplitNoSeparator(tail, ',');
    OnePiece(tail, head + ",");
    assert head + "," + tail == head + ("," + tail);
    BadExtended(head, "," + tail);
    BadTrimmed(head + "," + tail);
    AnyBadCons(TrimSpace(head + "," + tail), []);
    assert [TrimSpace(head + "," + tail)] + [] == [TrimSpace(head + "," + tail)];
    BlankEnds(head, tail);
  }

  lemma AfterComma(head: string, tail: string)
    requires '=' in tail ==> (AnyBad(Pieces(tail, "")) <==> !WellFormed(Split(tail, ',')))
    ensures AnyBad(Pieces("," + tail, head)) <==> !WellFormed([head] + Split(tail, ','))
  {
    if '=' in tail {
      CommaBeforePair(head, tail);
    } else if Blank(tail) {
      CommaBeforeBlank(head, tail);
    } else {
      CommaBeforeOther(head, tail);
    }
  }

  lemma NoEqualsNotWellFormed(head: string, tail: string)
    requires '=' !in tail && !Blank(tail)
    ensures !WellFormed([head] + Split(tail, ','))
  {
    PartsOfText(tail);
    var parts := Split(tail, ',');
    assert parts[0] in parts && Bad(parts[0]);
    var all, n := [head] + parts, |parts|;
    NoneBadCons(head, parts);
    NoneBadCons(head, parts[..n - 1]);
    assert all[..n] == [head] + parts[..n - 1] && all[n] == parts[n - 1];
    if n == 1 {
      OnePart(tail);
    } else {
      assert parts[..n - 1][0] == parts[0] && parts[0] in parts[..n - 1];
    }
  }

  lemma {:induction false} OnePart(s: string)
    requires |Split(s, ',')| == 1
    ensures Split(s, ',') == [s]
  {
    if s != "" {
      PartsOfText(s[1..]);
      if s[0] != ',' {
        var rest := Split(s[1..], ',');
        assert Split(s, ',') == [[s[0]] + rest[0]] + rest[1..];
        assert |rest| == 1 && rest[1..] == [];
        OnePart(s[1..]);
        assert s == [s[0]] + s[1..];
      }
    }
  }

  lemma {:induction false} BackslashFreePieces(raw: string)
    requires '\\' !in raw && raw != ""
    ensures AnyBad(Pieces(raw, "")) <==> !WellFormed(Split(raw, ','))
    decreases |raw|
  {
    if ',' in raw {
      var head, tail := FirstComma(raw);
      assert raw == head + ("," + tail);
      PlainTextIsCollected(head, "," + tail, "");
      assert "" + head == head;
      SplitHead(head, ',', tail);
      assert head + [','] + tail == raw;
      assert forall c :: c in head || c in tail ==> c in raw;
      if '=' in tail {
        BackslashFreePieces(tail);
      }
      AfterComma(head, tail);
    } else {
      SplitNoSeparator(raw, ',');
      OnePiece(raw, "");
      assert "" + raw == raw;
      BadTrimmed(raw);
      assert raw in [raw] && forall p :: p in [raw] ==> p == raw;
      AnyBadCons(TrimSpace(raw), []);
      assert [TrimSpace(raw)] + [] == [TrimSpace(raw)];
    }
  }

  /** A text without backslashes parses iff it is empty, or every part between its commas is a pair,
      except that one blank part may follow the last comma. */
  lemma BackslashFreeParsesExactlyWhen(raw: string)
    requires '\\' !in raw
    ensures Parse(raw).Present? <==> raw == "" || WellFormed(Split(raw, ','))
  {
    MalformedExactlyWhen(raw);
    if raw != "" {
      BackslashFreePieces(raw);
    }
  }

  // ---------------------------------------------------------------- reading a pair

  /** A pair is its key and its value around the first equals sign, with white space around either. */
  lemma PairMeaning(piece: string) returns (a: string, b: string, c: string, d: string)
    requires IsPair(piece)
    ensures piece == a + PairKey(piece) + b + "=" + c + PairValue(piece) + d
    ensures Blank(a) && Blank(b) && Blank(c) && Blank(d)
    ensures Trimmed(PairKey(piece)) && Trimmed(PairValue(piece)) && '=' !in PairKey(piece) && PairKey(piece) != ""
  {
    var k := FirstEquals(piece);
    a, b := TrimSpaceMeaning(piece[..k]);
    c, d := TrimSpaceMeaning(piece[k + 1..]);
    TrimSpaceTrims(piece[..k]);
    TrimSpaceTrims(piece[k + 1..]);
    assert piece == piece[..k] + ("=" + piece[k + 1..]);
    Around(a, PairKey(piece), b, c, PairValue(piece), d);
  }

  lemma Around(a: string, key: string, b: string, c: string, value: string, d: string)
    ensures (a + key + b) + ("=" + (c + value + d)) == a + key + b + "=" + c + value + d
  {
    var x := a + key + b;
    assert x + ("=" + (c + value + d)) == x + "=" + (c + value + d);
    assert x + "=" + (c + value + d) == x + "=" + c + value + d;
  }

  /** The keys that are tried for an annotation. */
  lemma AnnotationKeyExamples()
    ensures AnnotationKeys("alb.ingress.kubernetes.io", "tags", false, ["other"]) == ["alb.ingress.kubernetes.io/tags", "other/tags"]
    ensures AnnotationKeys("alb.ingress.kubernetes.io", "kubernetes.io/tags", true, ["other"]) == ["kubernetes.io/tags"]
  {
    assert "alb.ingress.kubernetes.io" + "/" + "tags" == "alb.ingress.kubernetes.io/tags" && "other" + "/" + "tags" == "other/tags";
  }
}
