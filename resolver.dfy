/** The command-line converter: the arguments are joined with single spaces,
    the result is cut at every `/`, each piece is replaced by its other text
    form (hex pieces by the compact form, compact pieces by the hyphenated hex
    form, anything else left as it is), and the pieces are joined again with
    `/`. The printed line is the input, a space, and the converted string. */
module Resolver {
  import opened Outcomes
  import opened Uuids
  import Crockford
  import HexForm
  import opened Uuid32Codec

  /** `str::split` on one character: the text between separators, in order,
      empty pieces included, one more piece than there are separators. */
  function Split(s: string, sep: char): (pieces: seq<string>)
    ensures |pieces| >= 1
  {
    if s == [] then [[]]
    else
      var rest := Split(s[1..], sep);
      if s[0] == sep then [[]] + rest
      else [[s[0]] + rest[0]] + rest[1..]
  }

  /** `join`: the pieces with the separator between neighbours; the result
      starts with the first piece. */
  function Join(pieces: seq<string>, sep: char): (s: string)
    ensures pieces != [] ==> pieces[0] <= s
  {
    if pieces == [] then []
    else if |pieces| == 1 then pieces[0]
    else pieces[0] + [sep] + Join(pieces[1..], sep)
  }

  /** A join of pieces that hold no separator holds one separator fewer than
      there are pieces. */
  lemma {:induction false} JoinCount(pieces: seq<string>, sep: char)
    requires |pieces| >= 1
    requires forall i :: 0 <= i < |pieces| ==> sep !in pieces[i]
    ensures multiset(Join(pieces, sep))[sep] + 1 == |pieces|
  {
    if |pieces| > 1 {
      JoinCount(pieces[1..], sep);
      var rest := Join(pieces[1..], sep);
      assert multiset(pieces[0] + [sep] + rest) == multiset(pieces[0]) + multiset{sep} + multiset(rest);
    }
  }

  /** A split has one piece more than the string has separators, and no piece
      holds a separator. */
  lemma {:induction false} SplitPieces(s: string, sep: char)
    ensures |Split(s, sep)| == multiset(s)[sep] + 1
    ensures forall i :: 0 <= i < |Split(s, sep)| ==> sep !in Split(s, sep)[i]
  {
    if s != [] {
      SplitPieces(s[1..], sep);
      assert s == [s[0]] + s[1..];
      assert multiset(s) == multiset{s[0]} + multiset(s[1..]);
    }
  }

  /** Joining the pieces of a split gives back the string. */
  lemma {:induction false} JoinSplit(s: string, sep: char)
    ensures Join(Split(s, sep), sep) == s
  {
    if s != [] {
      var rest := Split(s[1..], sep);
      JoinSplit(s[1..], sep);
      assert s == [s[0]] + s[1..];
      if s[0] == sep {
        assert Split(s, sep) == [[]] + rest;
        JoinCons([], rest, sep);
      } else {
        var pieces := [[s[0]] + rest[0]] + rest[1..];
        assert Split(s, sep) == pieces;
        if |rest| > 1 {
          JoinCons(rest[0], rest[1..], sep);
          assert rest == [rest[0]] + rest[1..];
          JoinCons([s[0]] + rest[0], rest[1..], sep);
        }
      }
    }
  }

  lemma JoinCons(p: string, rest: seq<string>, sep: char)
    requires rest != []
    ensures Join([p] + rest, sep) == p + [sep] + Join(rest, sep)
  {
    assert ([p] + rest)[1..] == rest;
  }

  lemma {:induction false} SplitNoSeparator(a: string, sep: char)
    requires sep !in a
    ensures Split(a, sep) == [a]
  {
    if a != [] {
      SplitNoSeparator(a[1..], sep);
      assert a == [a[0]] + a[1..];
    }
  }

  lemma {:induction false} SplitAtSeparator(a: string, sep: char, t: string)
    requires sep !in a
    ensures Split(a + [sep] + t, sep) == [a] + Split(t, sep)
  {
    if a == [] {
      assert a + [sep] + t == [sep] + t;
      assert ([sep] + t)[1..] == t;
    } else {
      assert (a + [sep] + t)[1..] == a[1..] + [sep] + t;
      SplitAtSeparator(a[1..], sep, t);
      assert a == [a[0]] + a[1..];
    }
  }

  /** Splitting a join of pieces that hold no separator gives back the pieces. */
  lemma {:induction false} SplitJoin(pieces: seq<string>, sep: char)
    requires |pieces| >= 1
    requires forall i :: 0 <= i < |pieces| ==> sep !in pieces[i]
    ensures Split(Join(pieces, sep), sep) == pieces
  {
    if |pieces| == 1 {
      SplitNoSeparator(pieces[0], sep);
    } else {
      SplitJoin(pieces[1..], sep);
      SplitAtSeparator(pieces[0], sep, Join(pieces[1..], sep));
      assert pieces == [pieces[0]] + pieces[1..];
    }
  }

  /** What the loop body appends for one piece: nothing for an empty piece; the
      compact form for a hex piece, tried first; the hyphenated form for a piece
      that `Uuid32::try_from` accepts; the piece itself otherwise. */
  function ConvertPiece(piece: string): (r: string)
    ensures |r| == 0 <==> |piece| == 0
    ensures '/' !in piece ==> '/' !in r
  {
    if |piece| < 1 then ""
    else
      match HexForm.TryParse(piece)
      case Some(u) =>
        NoSlashInCompact(Display(FromUuid(u)));
        Display(FromUuid(u))
      case None =>
        match TryFrom(piece)
        case Ok(v) =>
          NoSlashInHyphenated(IntoUuid(v));
          HexForm.Hyphenated(IntoUuid(v))
        case Err(_) => piece
  }

  /** The output splits into exactly as many pieces as the input, and piece `i`
      of the output is piece `i` of the input converted. */
  ghost predicate ConvertsPieces(input: string, output: string)
  {
    var pieces, converted := Split(input, '/'), Split(output, '/');
    |converted| == |pieces| &&
    forall i :: 0 <= i < |pieces| ==> converted[i] == ConvertPiece(pieces[i])
  }

  lemma NoSlashInCompact(s: string)
    requires Crockford.IsCanonical(s)
    ensures '/' !in s
  {
    forall i | 0 <= i < |s|
      ensures s[i] != '/'
    {
      assert Crockford.IsDigit(s[i]);
    }
  }

  lemma NoSlashInHyphenated(u: Uuid)
    ensures '/' !in HexForm.Hyphenated(u)
  {
    var s := HexForm.Hyphenated(u);
    HexForm.HyphenatedAlphabet(u);
    forall i | 0 <= i < |s|
      ensures s[i] != '/'
    {
      assert s[i] == '-' || HexForm.IsLowerHexDigit(s[i]);
    }
  }

  /** A recognised piece is replaced by the other form of the same identifier;
      any other piece is echoed; and no piece gains a separator. */
  lemma ConvertPieceMeaning(piece: string)
    ensures Decode(piece).Ok? ==>
              && Decode(ConvertPiece(piece)) == Decode(piece)
              && (HexForm.TryParse(piece).Some? <==> HexForm.TryParse(ConvertPiece(piece)).None?)
    ensures Decode(piece).Err? ==> ConvertPiece(piece) == piece
    ensures '/' !in piece ==> '/' !in ConvertPiece(piece)
  {
    DecodeAcceptsEitherForm(piece);
    match HexForm.TryParse(piece)
    case Some(u) =>
      DecodeDisplay(FromUuid(u));
      NoSlashInCompact(Display(FromUuid(u)));
    case None =>
      if Decode(piece).Ok? {
        var v := Decode(piece).value;
        DecodeHyphenated(v);
        HexForm.ParseHyphenated(v.inner);
        NoSlashInHyphenated(v.inner);
      }
  }

  /** Converting a canonical piece twice gives it back: the lowercase compact
      form without leading zeros and the lowercase hyphenated form are each
      other's conversions. */
  lemma ConvertTwice(piece: string)
    requires
      || (Crockford.IsCanonical(piece) && Crockford.Decode(piece).Ok?)
      || (HexForm.HasHyphens(piece) && HexForm.TryParse(piece).Some?
          && forall i :: 0 <= i < |piece| ==> !('A' <= piece[i] <= 'F'))
    ensures ConvertPiece(ConvertPiece(piece)) == piece
  {
    if Crockford.IsCanonical(piece) && Crockford.Decode(piece).Ok? {
      FormsAreDisjoint(piece);
      var v := Decode(piece).value;
      SerializeOfCompact(piece);
      HexForm.ParseHyphenated(v.inner);
    } else {
      var u := HexForm.TryParse(piece).value;
      DecodeDisplay(FromUuid(u));
      HexForm.HyphenatedOfParse(piece);
    }
  }

  /** The loop of `main`, from the split to the join. */
  method Convert(arg: string) returns (out: string)
    ensures ConvertsPieces(arg, out)
  {
    var pieces := Split(arg, '/');
    var result: seq<string> := [];
    for i := 0 to |pieces|
      invariant |result| == i
      invariant forall j :: 0 <= j < i ==> result[j] == ConvertPiece(pieces[j])
    {
      var piece := pieces[i];
      if |piece| < 1 {
        result := result + [""];
      } else if HexForm.TryParse(piece).Some? {
        var u32 := FromUuid(HexForm.TryParse(piece).value);
        result := result + [Display(u32)];
      } else if TryFrom(piece).Ok? {
        var u := IntoUuid(TryFrom(piece).value);
        result := result + [HexForm.Hyphenated(u)];
      } else {
        result := result + [piece];
      }
    }
    out := Join(result, '/');
    SplitPieces(arg, '/');
    forall j | 0 <= j < |result|
      ensures '/' !in result[j]
    {
      ConvertPieceMeaning(pieces[j]);
    }
    SplitJoin(result, '/');
  }

  /** `main` after reading its arguments: the line it prints. */
  method Run(args: seq<string>) returns (line: string)
    ensures var arg := Join(args, ' ');
      && |line| > |arg| && line[..|arg|] == arg && line[|arg|] == ' '
      && ConvertsPieces(arg, line[|arg| + 1..])
  {
    var arg := Join(args, ' ');
    var out := Convert(arg);
    line := arg + " " + out;
    assert line[|arg| + 1..] == out;
  }

  /** Empty pieces are kept: "a//b" has three pieces, the middle one empty,
      and an empty piece converts to an empty piece. */
  lemma EmptyPiecesKept()
    ensures Split("a//b", '/') == ["a", "", "b"]
    ensures ConvertPiece("") == ""
  {
    assert "a//b" == "a" + ['/'] + "/b";
    assert "/b" == "" + ['/'] + "b";
    SplitNoSeparator("b", '/');
    SplitAtSeparator("", '/', "b");
    SplitAtSeparator("a", '/', "/b");
  }
}
