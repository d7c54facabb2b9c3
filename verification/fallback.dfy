/** The line protocol of the coordinate lookup used for nodes the point
    table lacks (`get_latlon_str_from_flatnodes`). The helper process
    reads whitespace-separated ids from its standard input and prints one
    `lon;lat;id` line for each id it can place. The process itself is an
    oracle; only the text crossing the pipe is modelled. */
module Fallback {
  import opened Wrappers
  import opened Text

  /** One `str(i) + '\n'` per id, then one extra `'\n'`. */
  function Request(ids: seq<int>): (r: string)
    ensures |r| > 0 && r[|r| - 1] == '\n'
  {
    if |ids| == 0 then "\n" else IntToString(ids[0]) + "\n" + Request(ids[1..])
  }

  /** How the helper's `std::cin >> osm_id; while (!std::cin.eof())` loop
      consumes its input: whitespace is skipped, then a run of
      non-whitespace characters is read as one id. An id whose run ends
      the input sets end-of-file while it is read, and the loop stops
      before handling it. A run that is not a number stops the reading. */
  function ReaderIds(input: string): (r: seq<int>)
    decreases |input|
  {
    if |input| == 0 then []
    else if IsSpace(input[0]) then ReaderIds(input[1..])
    else
      var n := TokenLength(input);
      if n == |input| then []
      else match ParseInt(input[..n])
        case None => []
        case Some(id) => [id] + ReaderIds(input[n..])
  }

  /** The length of the leading run of non-whitespace characters. */
  function TokenLength(s: string): (n: nat)
    ensures n <= |s|
    ensures forall k :: 0 <= k < n ==> !IsSpace(s[k])
    ensures n < |s| ==> IsSpace(s[n])
  {
    if |s| == 0 || IsSpace(s[0]) then 0 else 1 + TokenLength(s[1..])
  }

  lemma TokenOfDecimal(i: int, rest: string)
    requires |rest| > 0 && IsSpace(rest[0])
    ensures TokenLength(IntToString(i) + rest) == |IntToString(i)|
  {
    var s := IntToString(i);
    TokenPrefix(s, rest);
  }

  lemma {:induction false} TokenPrefix(s: string, rest: string)
    requires forall k :: 0 <= k < |s| ==> IsDigit(s[k]) || s[k] == '-'
    requires |rest| > 0 && IsSpace(rest[0])
    ensures TokenLength(s + rest) == |s|
    decreases |s|
  {
    if |s| == 0 {
      assert s + rest == rest;
    } else {
      assert (s + rest)[1..] == s[1..] + rest;
      TokenPrefix(s[1..], rest);
    }
  }

  /** The request reaches the helper whole: every id is handled, in
      order, because each one is followed by a newline. */
  lemma {:induction false} RequestRoundTrip(ids: seq<int>)
    ensures ReaderIds(Request(ids)) == ids
    decreases |ids|
  {
    if |ids| == 0 {
      assert ReaderIds("\n") == ReaderIds("");
    } else {
      var rest := "\n" + Request(ids[1..]);
      assert Request(ids) == IntToString(ids[0]) + rest;
      ReadOne(ids[0], rest);
      assert rest[1..] == Request(ids[1..]);
      RequestRoundTrip(ids[1..]);
    }
  }

  /** A decimal followed by whitespace is read as one id, and reading
      goes on after that character. */
  lemma ReadOne(i: int, rest: string)
    requires |rest| > 0 && IsSpace(rest[0])
    ensures ReaderIds(IntToString(i) + rest) == [i] + ReaderIds(rest[1..])
  {
    var s := IntToString(i);
    var input := s + rest;
    TokenOfDecimal(i, rest);
    assert input[..|s|] == s;
    assert input[|s|..] == rest;
    ParseIntToString(i);
    assert !IsSpace(input[0]) by {
      assert input[0] == s[0];
    }
    assert ReaderIds(rest) == ReaderIds(rest[1..]);
  }

  /** One reply, in the order the helper prints it. */
  datatype Reply = Reply(lon: string, lat: string, id: string)

  /** A reply field prints as one token: no separator, no whitespace. */
  predicate PlainField(f: string) {
    |f| > 0 && ';' !in f && forall k :: 0 <= k < |f| ==> !IsSpace(f[k])
  }

  predicate PlainReply(r: Reply) {
    PlainField(r.lon) && PlainField(r.lat) && PlainField(r.id)
  }

  function ReplyLine(r: Reply): string {
    r.lon + ";" + r.lat + ";" + r.id
  }

  /** What the helper prints for a list of replies. */
  function Response(rs: seq<Reply>): (out: string)
    ensures |rs| > 0 ==> out == ReplyLine(rs[0]) + "\n" + Response(rs[1..])
  {
    if |rs| == 0 then "" else ReplyLine(rs[0]) + "\n" + Response(rs[1..])
  }

  /** `line.split(';')` unpacked into `x, y, osm_id` and yielded as
      `(osm_id, y, x)`: the reply's lon/lat order is swapped to lat/lon.
      Any other field count fails to unpack. */
  function ParseLine(line: string): (r: Result<(string, string, string)>)
    ensures r.Success? <==> |Split(line, ';')| == 3
    ensures r.Success? ==> r.value == (Split(line, ';')[2], Split(line, ';')[1], Split(line, ';')[0])
  {
    var parts := Split(line, ';');
    if |parts| != 3 then Failure(ValueError("expected lon;lat;id"))
    else Success((parts[2], parts[1], parts[0]))
  }

  /** The `while (line := readline().strip())` loop over the reply lines:
      reading stops at the first line that is empty once stripped (end of
      output reads as an empty line). */
  function ParseLines(lines: seq<string>): (r: Result<seq<(string, string, string)>>)
    ensures r.Success? ==> |r.value| <= |lines|
    decreases |lines|
  {
    if |lines| == 0 || |Strip(lines[0])| == 0 then Success([])
    else
      var t :- ParseLine(Strip(lines[0]));
      var rest :- ParseLines(lines[1..]);
      Success([t] + rest)
  }

  /** The triples read from the helper's whole output. */
  function ParseResponse(out: string): Result<seq<(string, string, string)>> {
    ParseLines(Split(out, '\n'))
  }

  lemma {:induction false} StripPlain(s: string)
    requires forall k :: 0 <= k < |s| ==> !IsSpace(s[k])
    ensures Strip(s) == s
  {
  }

  lemma PlainLine(r: Reply)
    requires PlainReply(r)
    ensures '\n' !in ReplyLine(r)
    ensures Strip(ReplyLine(r)) == ReplyLine(r) && |ReplyLine(r)| > 0
    ensures Split(ReplyLine(r), ';') == [r.lon, r.lat, r.id]
  {
    var line := ReplyLine(r);
    assert forall k :: 0 <= k < |line| ==> !IsSpace(line[k]);
    StripPlain(line);
    var ps := [r.lon, r.lat, r.id];
    assert ps[1..] == [r.lat, r.id] && ps[1..][1..] == [r.id];
    assert Join([r.id], ';') == r.id;
    assert Join([r.lat, r.id], ';') == r.lat + ";" + r.id;
    assert Join(ps, ';') == r.lon + ";" + (r.lat + ";" + r.id);
    assert Join(ps, ';') == line;
    SplitJoin([r.lon, r.lat, r.id], ';');
  }

  lemma ParseLinesCons(line: string, lines: seq<string>, t: (string, string, string))
    requires |Strip(line)| > 0 && ParseLine(Strip(line)) == Success(t)
    requires ParseLines(lines).Success?
    ensures ParseLines([line] + lines) == Success([t] + ParseLines(lines).value)
  {
    assert ([line] + lines)[1..] == lines;
  }

  lemma ResponseSplit(rs: seq<Reply>)
    requires |rs| > 0 && PlainReply(rs[0])
    ensures Split(Response(rs), '\n') == [ReplyLine(rs[0])] + Split(Response(rs[1..]), '\n')
  {
    PlainLine(rs[0]);
    SplitAfterPart(ReplyLine(rs[0]), '\n', Response(rs[1..]));
  }

  /** The replies as the reader yields them: `(id, lat, lon)`. */
  function Swapped(rs: seq<Reply>): (r: seq<(string, string, string)>)
    ensures |r| == |rs|
    ensures forall j :: 0 <= j < |rs| ==> r[j] == (rs[j].id, rs[j].lat, rs[j].lon)
  {
    if |rs| == 0 then [] else [(rs[0].id, rs[0].lat, rs[0].lon)] + Swapped(rs[1..])
  }

  /** Reading back what the helper prints yields every reply, with the
      coordinates swapped to `(id, lat, lon)`. */
  lemma {:induction false} ResponseRoundTrip(rs: seq<Reply>)
    requires forall j :: 0 <= j < |rs| ==> PlainReply(rs[j])
    ensures ParseResponse(Response(rs)) == Success(Swapped(rs))
    decreases |rs|
  {
    if |rs| == 0 {
      assert Split("", '\n') == [""];
      assert ParseLines([""]) == Success([]);
    } else {
      ResponseSplit(rs);
      PlainLine(rs[0]);
      ResponseRoundTrip(rs[1..]);
      ParseLinesCons(ReplyLine(rs[0]), Split(Response(rs[1..]), '\n'), (rs[0].id, rs[0].lat, rs[0].lon));
    }
  }
}
