/** The audit log's data file: one rendered record a line, and the loader that verifies it. */
module AuditText {
  import opened Wrappers
  import opened AuditChain

  /** `render` is `JSON.stringify` of a record and `parse` is `JSON.parse` of a line. */
  datatype Codec<!C> = Codec(render: Record<C> -> string, parse: string -> Option<Record<C>>)

  /** What JSON promises: one non-empty line a record, which reads back as the record. */
  ghost predicate JsonLines<C(!new)>(k: Codec<C>)
  {
    forall r :: OneLine(k.render(r)) && k.parse(k.render(r)) == Some(r)
  }

  predicate OneLine(s: string)
  {
    s != "" && '\n' !in s && '\r' !in s
  }

  /** Text followed by another rendered record is not JSON. */
  ghost predicate NoTwoOnALine<C(!new)>(k: Codec<C>)
  {
    forall s, r :: k.parse(s).Some? ==> k.parse(s + k.render(r)) == None
  }

  // ---------------------------------------------------------------- lines

  /** `text.split(/\r?\n/)` */
  function Pieces(text: string): (ps: seq<string>)
    ensures |ps| > 0
  {
    if text == "" then [""]
    else if text[0] == '\n' then [""] + Pieces(text[1..])
    else if text[0] == '\r' && |text| > 1 && text[1] == '\n' then [""] + Pieces(text[2..])
    else WithFirst(text[0], Pieces(text[1..]))
  }

  function WithFirst(c: char, ps: seq<string>): (r: seq<string>)
    requires ps != []
    ensures |r| == |ps|
  {
    [[c] + ps[0]] + ps[1..]
  }

  /** A text without a line feed is one piece; a line feed ends a piece, with the return before it if there is one. */
  lemma {:induction false} PieceEnds(s: string, end: string, rest: string)
    requires '\n' !in s
    requires end == "\r\n" || (end == "\n" && (s == "" || s[|s| - 1] != '\r'))
    ensures Pieces(s) == [s]
    ensures Pieces(s + end + rest) == [s] + Pieces(rest)
  {
    var whole := s + end + rest;
    if s == "" {
      assert whole[1..] == end[1..] + rest;
      if |end| == 2 {
        assert whole[2..] == rest;
      } else {
        assert whole[1..] == rest;
      }
    } else {
      PieceEnds(s[1..], end, rest);
      assert whole[0] == s[0] && s[0] in s && whole[1..] == s[1..] + end + rest;
      assert |s| > 1 ==> s[1] in s;
      assert |s| > 1 ==> whole[1] == s[1];
      assert s == [s[0]] + s[1..];
    }
  }

  /** Two texts joined: the last piece of one runs on into the first of the other. */
  function Join(ps: seq<string>, qs: seq<string>): seq<string>
    requires ps != [] && qs != []
  {
    ps[..|ps| - 1] + ([ps[|ps| - 1] + qs[0]] + qs[1..])
  }

  function NonEmpty(ps: seq<string>): seq<string>
  {
    if ps == [] then []
    else if ps[0] == "" then NonEmpty(ps[1..])
    else [ps[0]] + NonEmpty(ps[1..])
  }

  function Lines(text: string): seq<string>
  {
    NonEmpty(Pieces(text))
  }

  /** Nothing, or text that ends its last line. */
  predicate Complete(text: string)
  {
    text == "" || text[|text| - 1] == '\n'
  }

  function Tail(text: string): string
  {
    var ps := Pieces(text);
    ps[|ps| - 1]
  }

  lemma {:induction false} TailOf(text: string)
    ensures Tail(text) == "" <==> Complete(text)
  {
    if text == "" {
    } else if text[0] == '\n' {
      TailOf(text[1..]);
    } else if text[0] == '\r' && |text| > 1 && text[1] == '\n' {
      TailOf(text[2..]);
    } else {
      TailOf(text[1..]);
      var rest := Pieces(text[1..]);
      if |rest| == 1 {
        assert Tail(text) == [text[0]] + rest[0];
        NoBreakInside(text[1..]);
      }
    }
  }

  lemma {:induction false} NoBreakInside(text: string)
    requires |Pieces(text)| == 1
    ensures '\n' !in text && Pieces(text) == [text]
  {
    if text == "" {
    } else if text[0] == '\n' || (text[0] == '\r' && |text| > 1 && text[1] == '\n') {
      assert false;
    } else {
      NoBreakInside(text[1..]);
      assert text == [text[0]] + text[1..];
    }
  }

  lemma JoinAfterBreak(ps: seq<string>, qs: seq<string>)
    requires ps != [] && qs != []
    ensures Join([""] + ps, qs) == [""] + Join(ps, qs)
  {
    assert ([""] + ps)[..|ps|] == [""] + ps[..|ps| - 1];
  }

  lemma JoinWithFirst(c: char, ps: seq<string>, qs: seq<string>)
    requires ps != [] && qs != []
    ensures Join(WithFirst(c, ps), qs) == WithFirst(c, Join(ps, qs))
  {
    if |ps| == 1 {
      assert ([c] + ps[0]) + qs[0] == [c] + (ps[0] + qs[0]);
      assert Join(ps, qs)[1..] == qs[1..];
    } else {
      assert Join(ps, qs)[0] == ps[0];
      assert WithFirst(c, ps)[..|ps| - 1] == [[c] + ps[0]] + ps[1..|ps| - 1];
      assert Join(ps, qs)[1..] == ps[1..|ps| - 1] + ([ps[|ps| - 1] + qs[0]] + qs[1..]);
    }
  }

  lemma AfterBreak(ps: seq<string>, rest: seq<string>, whole: seq<string>, qs: seq<string>)
    requires rest != [] && qs != [] && ps == [""] + rest && whole == [""] + Join(rest, qs)
    ensures whole == Join(ps, qs)
  {
    JoinAfterBreak(rest, qs);
  }

  lemma {:induction false} PiecesAppend(text: string, more: string)
    requires more != "" && more[0] != '\n'
    ensures Pieces(text + more) == Join(Pieces(text), Pieces(more))
  {
    var whole := text + more;
    if text == "" {
      assert whole == more;
      assert "" + Pieces(more)[0] == Pieces(more)[0];
    } else if text[0] == '\n' {
      PiecesAppend(text[1..], more);
      assert whole[0] == text[0] && whole[1..] == text[1..] + more;
      AfterBreak(Pieces(text), Pieces(text[1..]), Pieces(whole), Pieces(more));
    } else if text[0] == '\r' && |text| > 1 && text[1] == '\n' {
      PiecesAppend(text[2..], more);
      assert whole[0] == text[0] && whole[1] == text[1] && whole[2..] == text[2..] + more;
      AfterBreak(Pieces(text), Pieces(text[2..]), Pieces(whole), Pieces(more));
    } else {
      PiecesAppend(text[1..], more);
      assert whole[0] == text[0] && whole[1..] == text[1..] + more;
      JoinWithFirst(text[0], Pieces(text[1..]), Pieces(more));
    }
  }

  lemma {:induction false} PiecesOfLine(s: string)
    requires OneLine(s)
    ensures Pieces(s + "\n") == [s, ""]
  {
    var t := s + "\n";
    assert t[0] == s[0] && t[0] in s && t[1..] == s[1..] + "\n";
    if |s| == 1 {
      assert s[1..] + "\n" == "\n";
      assert Pieces("\n") == ["", ""] by { assert "\n"[1..] == ""; }
      assert s == [s[0]] + "";
    } else {
      assert OneLine(s[1..]);
      PiecesOfLine(s[1..]);
      assert s == [s[0]] + s[1..];
    }
  }

  lemma {:induction false} NonEmptyConcat(a: seq<string>, b: seq<string>)
    ensures NonEmpty(a + b) == NonEmpty(a) + NonEmpty(b)
  {
    if a == [] {
      assert a + b == b;
    } else {
      assert (a + b)[0] == a[0] && (a + b)[1..] == a[1..] + b;
      NonEmptyConcat(a[1..], b);
    }
  }

  lemma NonEmptyOne(s: string)
    ensures NonEmpty([s]) == if s == "" then [] else [s]
  {
    assert [s][1..] == [];
  }

  /** The lines a text has ended. */
  function Ended(text: string): seq<string>
  {
    var ps := Pieces(text);
    NonEmpty(ps[..|ps| - 1])
  }

  lemma LinesOf(text: string)
    ensures Lines(text) == Ended(text) + (if Complete(text) then [] else [Tail(text)])
  {
    var ps := Pieces(text);
    assert ps == ps[..|ps| - 1] + [Tail(text)];
    NonEmptyConcat(ps[..|ps| - 1], [Tail(text)]);
    NonEmptyOne(Tail(text));
    TailOf(text);
  }

  /** Appending a line adds it after the lines there are, glued to the last one if that was not ended. */
  lemma LinesAppend(text: string, line: string)
    requires OneLine(line)
    ensures Lines(text + line + "\n") == Ended(text) + [Tail(text) + line]
    ensures Complete(text) ==> Lines(text + line + "\n") == Lines(text) + [line]
  {
    var init := Pieces(text)[..|Pieces(text)| - 1];
    var glued := Tail(text) + line;
    assert text + line + "\n" == text + (line + "\n");
    assert (line + "\n")[0] == line[0] && line[0] in line;
    PiecesAppend(text, line + "\n");
    PiecesOfLine(line);
    assert [line, ""][1..] == [""];
    assert Pieces(text + line + "\n") == init + [glued] + [""];
    NonEmptyConcat(init + [glued], [""]);
    NonEmptyConcat(init, [glued]);
    NonEmptyOne(glued);
    NonEmptyOne("");
    LinesOf(text);
    TailOf(text);
    if Complete(text) {
      assert glued == line;
    }
  }

  // ---------------------------------------------------------------- the verifying loader

  datatype LoadError = Unparsable(line: nat) | ChainBroken(record: nat)

  /** The records taken in before the loader stopped, and why it stopped if it did not finish. */
  datatype Loading<C> = Loading(records: seq<Record<C>>, error: Option<LoadError>)

  predicate Follows<C>(sch: Schema<C>, sha: Sha, r: Record<C>, previousHash: string)
  {
    r.previousHash == previousHash && r.recordHash == HashRecord(sch, sha, r.item, r.atMs, previousHash)
  }

  /** Whether a record may come after one with this hash. */
  type Link<!C> = (Record<C>, string) -> bool

  function LinkOf<C>(sch: Schema<C>, sha: Sha): Link<C>
  {
    (r, previousHash) => Follows(sch, sha, r, previousHash)
  }

  function LoadWith<C>(link: Link<C>, k: Codec<C>, lines: seq<string>, previousHash: string, index: nat): Loading<C>
    decreases |lines|
  {
    if lines == [] then Loading([], None)
    else match k.parse(lines[0])
      case None => Loading([], Some(Unparsable(index + 1)))
      case Some(r) =>
        if !link(r, previousHash) then Loading([], Some(ChainBroken(index + 1)))
        else After(r, LoadWith(link, k, lines[1..], r.recordHash, index + 1))
  }

  function After<C>(r: Record<C>, rest: Loading<C>): Loading<C>
  {
    rest.(records := [r] + rest.records)
  }

  function LoadFrom<C>(sch: Schema<C>, sha: Sha, k: Codec<C>, lines: seq<string>, previousHash: string, index: nat):
    Loading<C>
  {
    LoadWith(LinkOf(sch, sha), k, lines, previousHash, index)
  }

  function LoadText<C>(sch: Schema<C>, sha: Sha, k: Codec<C>, text: string): Loading<C>
  {
    LoadFrom(sch, sha, k, Lines(text), "", 0)
  }

  function HeadAfter<C>(previousHash: string, records: seq<Record<C>>): string
  {
    if records == [] then previousHash else Head(records)
  }

  /** One more line after what has been read. */
  function LoadOne<C>(link: Link<C>, k: Codec<C>, sofar: Loading<C>, line: string, previousHash: string, index: nat):
    Loading<C>
  {
    if sofar.error.Some? then sofar
    else match k.parse(line)
      case None => sofar.(error := Some(Unparsable(index + 1)))
      case Some(r) =>
        if !link(r, HeadAfter(previousHash, sofar.records)) then sofar.(error := Some(ChainBroken(index + 1)))
        else Loading(sofar.records + [r], None)
  }

  lemma LoadOneAfter<C>(link: Link<C>, k: Codec<C>, rest: Loading<C>, line: string, r: Record<C>,
                        previousHash: string, index: nat)
    ensures LoadOne(link, k, After(r, rest), line, previousHash, index) ==
      After(r, LoadOne(link, k, rest, line, r.recordHash, index))
  {
    assert HeadAfter(previousHash, [r] + rest.records) == HeadAfter(r.recordHash, rest.records);
    var p := k.parse(line);
    if p.Some? {
      assert [r] + (rest.records + [p.value]) == ([r] + rest.records) + [p.value];
    }
  }

  lemma LoadFirst<C>(link: Link<C>, k: Codec<C>, line: string, rest: seq<string>, previousHash: string, index: nat)
    ensures LoadWith(link, k, [line] + rest, previousHash, index) ==
      match k.parse(line)
      case None => Loading([], Some(Unparsable(index + 1)))
      case Some(r) =>
        if !link(r, previousHash) then Loading([], Some(ChainBroken(index + 1)))
        else After(r, LoadWith(link, k, rest, r.recordHash, index + 1))
  {
    assert ([line] + rest)[0] == line && ([line] + rest)[1..] == rest;
  }

  lemma {:induction false} LoadLast<C>(link: Link<C>, k: Codec<C>, lines: seq<string>, line: string,
                                       previousHash: string, index: nat)
    ensures LoadWith(link, k, lines + [line], previousHash, index) ==
      LoadOne(link, k, LoadWith(link, k, lines, previousHash, index), line, previousHash, index + |lines|)
    decreases |lines|
  {
    if lines == [] {
      LoadFirst(link, k, line, [], previousHash, index);
      assert lines + [line] == [line] + [];
    } else {
      var first, rest := lines[0], lines[1..];
      assert lines == [first] + rest && lines + [line] == [first] + (rest + [line]);
      LoadFirst(link, k, first, rest, previousHash, index);
      LoadFirst(link, k, first, rest + [line], previousHash, index);
      var p := k.parse(first);
      if p.Some? && link(p.value, previousHash) {
        LoadLast(link, k, rest, line, p.value.recordHash, index + 1);
        LoadOneAfter(link, k, LoadWith(link, k, rest, p.value.recordHash, index + 1), line, p.value,
                     previousHash, index + |lines|);
      }
    }
  }

  lemma ChainedSnoc<C>(sch: Schema<C>, sha: Sha, records: seq<Record<C>>, r: Record<C>)
    ensures Chained(sch, sha, records + [r]) <==> Chained(sch, sha, records) && Follows(sch, sha, r, Head(records))
  {
    var all := records + [r];
    assert all[..|records|] == records;
    assert Linked(sch, sha, all, |records|) <==> Follows(sch, sha, r, Head(records));
    if Chained(sch, sha, all) {
      ChainedPrefix(sch, sha, all, |records|);
    } else {
      assert forall i :: 0 <= i < |records| ==> all[..i] == records[..i];
      if Chained(sch, sha, records) {
        assert forall i :: 0 <= i < |records| ==> (Linked(sch, sha, records, i) <==> Linked(sch, sha, all, i));
      }
    }
  }

  /** What a loader that stopped had read: the longest run of lines that parse into one chain. */
  lemma {:induction false} LoadedSoFar<C>(sch: Schema<C>, sha: Sha, k: Codec<C>, lines: seq<string>)
    ensures var l := LoadFrom(sch, sha, k, lines, "", 0);
      && |l.records| <= |lines| && Chained(sch, sha, l.records)
      && (forall i :: 0 <= i < |l.records| ==> k.parse(lines[i]) == Some(l.records[i]))
      && (l.error.None? <==> |l.records| == |lines|)
      && (l.error.Some? ==> var n := |l.records|; match k.parse(lines[n])
          case None => l.error.value == Unparsable(n + 1)
          case Some(r) => l.error.value == ChainBroken(n + 1) && !Chained(sch, sha, l.records + [r]))
    decreases |lines|
  {
    if lines != [] {
      var m := |lines| - 1;
      LoadedSoFar(sch, sha, k, lines[..m]);
      assert lines == lines[..m] + [lines[m]];
      LoadLast(LinkOf(sch, sha), k, lines[..m], lines[m], "", 0);
      var before := LoadFrom(sch, sha, k, lines[..m], "", 0);
      if before.error.None? && k.parse(lines[m]).Some? {
        ChainedSnoc(sch, sha, before.records, k.parse(lines[m]).value);
      }
    }
  }

  /** The loader accepts exactly the texts whose lines parse into one chain. */
  lemma LoaderAcceptsExactly<C>(sch: Schema<C>, sha: Sha, k: Codec<C>, text: string, records: seq<Record<C>>)
    ensures LoadText(sch, sha, k, text) == Loading(records, None) <==>
      ReadsAs(k, Lines(text), records) && Chained(sch, sha, records)
  {
    AcceptsExactly(sch, sha, k, Lines(text), records);
  }

  ghost predicate ReadsAs<C>(k: Codec<C>, lines: seq<string>, records: seq<Record<C>>)
  {
    |records| == |lines| && forall i :: 0 <= i < |records| ==> k.parse(lines[i]) == Some(records[i])
  }

  lemma AcceptsExactly<C>(sch: Schema<C>, sha: Sha, k: Codec<C>, lines: seq<string>, records: seq<Record<C>>)
    ensures LoadFrom(sch, sha, k, lines, "", 0) == Loading(records, None) <==>
      ReadsAs(k, lines, records) && Chained(sch, sha, records)
  {
    LoadedSoFar(sch, sha, k, lines);
    if ReadsAs(k, lines, records) && Chained(sch, sha, records) {
      AcceptsChain(sch, sha, k, lines, records);
    }
  }

  lemma {:induction false} AcceptsChain<C>(sch: Schema<C>, sha: Sha, k: Codec<C>, lines: seq<string>,
                                           records: seq<Record<C>>)
    requires ReadsAs(k, lines, records) && Chained(sch, sha, records)
    ensures LoadFrom(sch, sha, k, lines, "", 0) == Loading(records, None)
    decreases |lines|
  {
    if lines != [] {
      var m := |lines| - 1;
      assert lines == lines[..m] + [lines[m]] && records == records[..m] + [records[m]];
      ChainedSnoc(sch, sha, records[..m], records[m]);
      AcceptsChain(sch, sha, k, lines[..m], records[..m]);
      LoadLast(LinkOf(sch, sha), k, lines[..m], lines[m], "", 0);
    }
  }

  /** Tamper evidence for files: two accepted files with one head hold the same records. */
  lemma SameHeadSameFile<C(!new)>(sch: Schema<C>, sha: Sha, k: Codec<C>, a: string, b: string)
    requires CollisionFree(sha) && Faithful(sch)
    requires LoadText(sch, sha, k, a).error.None? && LoadText(sch, sha, k, b).error.None?
    requires Head(LoadText(sch, sha, k, a).records) == Head(LoadText(sch, sha, k, b).records)
    ensures LoadText(sch, sha, k, a).records == LoadText(sch, sha, k, b).records
  {
    LoadedSoFar(sch, sha, k, Lines(a));
    LoadedSoFar(sch, sha, k, Lines(b));
    SameHeadSameChain(sch, sha, LoadText(sch, sha, k, a).records, LoadText(sch, sha, k, b).records);
  }

  lemma LineReadsBack<C(!new)>(sch: Schema<C>, sha: Sha, k: Codec<C>, lines: seq<string>, r: Record<C>)
    requires JsonLines(k) && LoadFrom(sch, sha, k, lines, "", 0).error.None?
    requires Follows(sch, sha, r, Head(LoadFrom(sch, sha, k, lines, "", 0).records))
    ensures LoadFrom(sch, sha, k, lines + [k.render(r)], "", 0) ==
      Loading(LoadFrom(sch, sha, k, lines, "", 0).records + [r], None)
  {
    LoadLast(LinkOf(sch, sha), k, lines, k.render(r), "", 0);
  }

  lemma LastLineAccepted<C>(sch: Schema<C>, sha: Sha, k: Codec<C>, lines: seq<string>, last: string)
    requires LoadFrom(sch, sha, k, lines + [last], "", 0).error.None?
    ensures LoadFrom(sch, sha, k, lines, "", 0).error.None? && k.parse(last).Some?
  {
    LoadLast(LinkOf(sch, sha), k, lines, last, "", 0);
  }

  lemma LastLineRefused<C>(sch: Schema<C>, sha: Sha, k: Codec<C>, lines: seq<string>, last: string)
    requires LoadFrom(sch, sha, k, lines, "", 0).error.None? && k.parse(last).None?
    ensures LoadFrom(sch, sha, k, lines + [last], "", 0).error == Some(Unparsable(|lines| + 1))
  {
    LoadLast(LinkOf(sch, sha), k, lines, last, "", 0);
  }

  lemma GluedLineRefused<C(!new)>(sch: Schema<C>, sha: Sha, k: Codec<C>, lines: seq<string>, last: string, r: Record<C>)
    requires NoTwoOnALine(k) && LoadFrom(sch, sha, k, lines + [last], "", 0).error.None?
    ensures LoadFrom(sch, sha, k, lines + [last + k.render(r)], "", 0).error == Some(Unparsable(|lines| + 1))
  {
    LastLineAccepted(sch, sha, k, lines, last);
    LastLineRefused(sch, sha, k, lines, last + k.render(r));
  }

  /**
   A record that follows on from an accepted file and is written to it is read back after what was
   there exactly when the file had ended its last line; if not, the file is refused from then on.
   */
  lemma WrittenReadsBack<C(!new)>(sch: Schema<C>, sha: Sha, k: Codec<C>, text: string, r: Record<C>)
    requires JsonLines(k) && NoTwoOnALine(k)
    requires LoadText(sch, sha, k, text).error.None?
    requires Follows(sch, sha, r, Head(LoadText(sch, sha, k, text).records))
    ensures LoadText(sch, sha, k, text + k.render(r) + "\n") == Loading(LoadText(sch, sha, k, text).records + [r], None)
      <==> Complete(text)
    ensures !Complete(text) ==> LoadText(sch, sha, k, text + k.render(r) + "\n").error.Some?
  {
    if Complete(text) {
      CompleteReadsBack(sch, sha, k, text, r);
    } else {
      LinesAppend(text, k.render(r));
      LinesOf(text);
      GluedLineRefused(sch, sha, k, Ended(text), Tail(text), r);
    }
  }

  lemma CompleteReadsBack<C(!new)>(sch: Schema<C>, sha: Sha, k: Codec<C>, text: string, r: Record<C>)
    requires JsonLines(k) && LoadText(sch, sha, k, text).error.None? && Complete(text)
    requires Follows(sch, sha, r, Head(LoadText(sch, sha, k, text).records))
    ensures LoadText(sch, sha, k, text + k.render(r) + "\n") ==
      Loading(LoadText(sch, sha, k, text).records + [r], None)
  {
    LinesAppend(text, k.render(r));
    LineReadsBack(sch, sha, k, Lines(text), r);
  }
}
