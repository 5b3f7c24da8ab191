/**
 * The avatar label of a worker card: `getInitials` in
 * src/components/WorkerCard.tsx, built from `split(' ')`, `n[0]`, `join('')`
 * and `toUpperCase()`.
 */
module WorkerCard {

  import Text
  import opened Seqs

  /**
   * `s.split(' ')`: the pieces between single spaces, so a leading, trailing
   * or repeated space yields an empty piece, and `""` yields `[""]`.
   */
  function Split(s: string): (r: seq<string>)
    ensures |r| >= 1
    ensures forall i :: 0 <= i < |r| ==> ' ' !in r[i]
  {
    if s == [] then [""]
    else
      var rest := Split(s[1..]);
      if s[0] == ' ' then [""] + rest
      else [[s[0]] + rest[0]] + rest[1..]
  }

  /** `pieces.join(sep)` */
  function Join(pieces: seq<string>, sep: string): string
  {
    if |pieces| == 0 then ""
    else if |pieces| == 1 then pieces[0]
    else pieces[0] + sep + Join(pieces[1..], sep)
  }

  /** Joining the pieces of a split with the separator gives back the string. */
  lemma {:induction false} JoinSplit(s: string)
    ensures Join(Split(s), " ") == s
  {
    if s != [] {
      var rest := Split(s[1..]);
      JoinSplit(s[1..]);
      if s[0] == ' ' {
        assert ([""] + rest)[1..] == rest;
      } else {
        var pieces := [[s[0]] + rest[0]] + rest[1..];
        if |rest| > 1 {
          assert pieces[1..] == rest[1..];
        }
        assert s == [s[0]] + s[1..];
      }
    }
  }

  /** A word with no space in front of `' ' + t` splits off as the first piece. */
  lemma {:induction false} SplitAfterWord(word: string, t: string)
    requires ' ' !in word
    ensures Split(word + " " + t) == [word] + Split(t)
  {
    if word == [] {
      assert word + " " + t == [' '] + t;
    } else {
      SplitAfterWord(word[1..], t);
      assert (word + " " + t)[1..] == word[1..] + " " + t;
      assert [word[0]] + word[1..] == word;
    }
  }

  /** A string with no space is a single piece. */
  lemma {:induction false} SplitWord(word: string)
    requires ' ' !in word
    ensures Split(word) == [word]
  {
    if word != [] {
      SplitWord(word[1..]);
      assert [word[0]] + word[1..] == word;
    }
  }

  /** Splitting a join of space-free pieces gives the pieces back. */
  lemma {:induction false} SplitJoin(pieces: seq<string>)
    requires |pieces| >= 1
    requires forall i :: 0 <= i < |pieces| ==> ' ' !in pieces[i]
    ensures Split(Join(pieces, " ")) == pieces
  {
    if |pieces| == 1 {
      SplitWord(pieces[0]);
    } else {
      SplitJoin(pieces[1..]);
      SplitAfterWord(pieces[0], Join(pieces[1..], " "));
      assert [pieces[0]] + pieces[1..] == pieces;
    }
  }

  /** `n[0]` rendered by `join`: the first character, or nothing for an empty piece. */
  function Head(piece: string): string
  {
    if piece == "" then "" else [piece[0]]
  }

  /** `pieces.map(n => n[0]).join('')` */
  function FirstChars(pieces: seq<string>): string
  {
    if pieces == [] then ""
    else FirstChars(pieces[..|pieces| - 1]) + Head(pieces[|pieces| - 1])
  }

  function NonEmpty(piece: string): bool { piece != "" }

  /** The non-empty pieces, in order. */
  function NonEmptyPieces(pieces: seq<string>): (r: seq<string>)
    ensures forall i :: 0 <= i < |r| ==> r[i] != "" && r[i] in pieces
    ensures forall p :: p in r <==> p in pieces && p != ""
  {
    var r := Filter(pieces, NonEmpty);
    assert forall i :: 0 <= i < |r| ==> r[i] in r;
    forall p
      ensures p in r <==> p in pieces && p != ""
    {
      FilterMember(pieces, NonEmpty, p);
    }
    r
  }

  /** The non-empty space-separated words of `name`, in order. */
  function Words(name: string): seq<string>
  {
    NonEmptyPieces(Split(name))
  }

  /** `getInitials(name)` */
  function GetInitials(name: string): string
  {
    Text.ToUpper(FirstChars(Split(name)))
  }

  /** One character per non-empty piece: that piece's first character. */
  lemma {:induction false} FirstCharsOfWords(pieces: seq<string>)
    ensures |FirstChars(pieces)| == |NonEmptyPieces(pieces)|
    ensures forall i :: 0 <= i < |FirstChars(pieces)| ==>
      FirstChars(pieces)[i] == NonEmptyPieces(pieces)[i][0]
  {
    if pieces != [] {
      var init, last := pieces[..|pieces| - 1], pieces[|pieces| - 1];
      FirstCharsOfWords(init);
      var f, w := FirstChars(init), NonEmptyPieces(init);
      assert FirstChars(pieces) == f + Head(last);
      assert NonEmptyPieces(pieces) == w + if last != "" then [last] else [];
    }
  }

  /** An empty name has empty initials. */
  lemma InitialsOfEmpty()
    ensures GetInitials("") == ""
  {
  }

  /**
   * The initials hold exactly one character per non-empty word, the i-th
   * being the upper-cased first character of the i-th word: spaces at either
   * end or in a row contribute nothing, and word order is kept.
   */
  lemma InitialsPerWord(name: string)
    ensures |GetInitials(name)| == |Words(name)|
    ensures forall i :: 0 <= i < |Words(name)| ==>
      Words(name)[i] != "" && GetInitials(name)[i] == Text.UpperChar(Words(name)[i][0])
  {
    FirstCharsOfWords(Split(name));
  }

  /** The initials contain no space. */
  lemma InitialsHaveNoSpace(name: string)
    ensures ' ' !in GetInitials(name)
  {
    InitialsPerWord(name);
    var w := Words(name);
    forall i | 0 <= i < |w|
      ensures GetInitials(name)[i] != ' '
    {
      assert w[i] in Split(name);
      assert w[i][0] in w[i];
    }
  }

  /** The initials are already upper case: upper-casing them again changes nothing. */
  lemma InitialsAreUpperCase(name: string)
    ensures Text.ToUpper(GetInitials(name)) == GetInitials(name)
  {
    Text.ToUpperOfUpper(GetInitials(name));
  }
}
