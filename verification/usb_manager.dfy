/** The `lsusb` wrapper: one record per line of the plain listing, and the
    manufacturer, product and serial strings picked out of the verbose
    descriptor dump of one device. */
module UsbManager {

  import opened Options
  import opened Strings
  import opened Seqs
  import opened Regex
  import Process

  const Connected: string := "connected"

  /** One entry of the USB device list returned to the API. */
  datatype Tablet = Tablet(id: string, bus: string, device: string, vendorId: string,
                           productId: string, description: string, status: string)

  /** `Bus (\d+) Device (\d+): ID ([0-9a-f]{4}):([0-9a-f]{4}) (.+)`. The five
      groups are the texts of items 1, 3, 5, 7 and 9. */
  const LsusbPattern: seq<Item> :=
    [Lit("Bus "), Plus(Digit), Lit(" Device "), Plus(Digit), Lit(": ID "),
     Exactly(LowerHex, 4), Lit(":"), Exactly(LowerHex, 4), Lit(" "), Plus(NotNewline)]

  predicate Decimal(t: string)
  {
    |t| >= 1 && AllIn(t, Digit)
  }

  predicate Hex4(t: string)
  {
    |t| == 4 && AllIn(t, LowerHex)
  }

  /** A line of the plain `lsusb` listing. */
  function LsusbLine(bus: string, device: string, vendor: string, product: string, desc: string): string
  {
    "Bus " + bus + " Device " + device + ": ID " + vendor + ":" + product + " " + desc
  }

  function LsusbPieces(bus: string, device: string, vendor: string, product: string, desc: string): seq<string>
  {
    ["Bus ", bus, " Device ", device, ": ID ", vendor, ":", product, " ", desc]
  }

  lemma LsusbPiecesConcat(bus: string, device: string, vendor: string, product: string, desc: string)
    ensures Concat(LsusbPieces(bus, device, vendor, product, desc)) == LsusbLine(bus, device, vendor, product, desc)
  {
    var ps := LsusbPieces(bus, device, vendor, product, desc);
    assert ps == ["Bus ", bus, " Device ", device, ": ID "] + [vendor, ":", product, " ", desc];
    ConcatAppend(["Bus ", bus, " Device ", device, ": ID "], [vendor, ":", product, " ", desc]);
    ConcatFive("Bus ", bus, " Device ", device, ": ID ");
    ConcatFive(vendor, ":", product, " ", desc);
  }

  /** What an anchored match of the listing pattern consumed. */
  lemma LsusbMatchSound(line: string)
    requires Run(line, 0, LsusbPattern).Some?
    ensures var g := Run(line, 0, LsusbPattern).value;
            && |g| == 10 && Decimal(g[1]) && Decimal(g[3]) && Hex4(g[5]) && Hex4(g[7])
            && |g[9]| >= 1 && '\n' !in g[9]
            && StartsWith(line, LsusbLine(g[1], g[3], g[5], g[7], g[9]))
  {
    var g := Run(line, 0, LsusbPattern).value;
    RunSound(line, 0, LsusbPattern);
    LsusbFits(g);
    LsusbPiecesConcat(g[1], g[3], g[5], g[7], g[9]);
    assert line[0..] == line;
  }

  /** Texts of the listing pattern's shape are the pieces of a listing line. */
  lemma LsusbFits(g: seq<string>)
    requires FitsAll(LsusbPattern, g)
    ensures && |g| == 10 && Decimal(g[1]) && Decimal(g[3]) && Hex4(g[5]) && Hex4(g[7])
            && |g[9]| >= 1 && '\n' !in g[9]
            && g == LsusbPieces(g[1], g[3], g[5], g[7], g[9])
  {
    assert Fits(LsusbPattern[0], g[0]) && Fits(LsusbPattern[2], g[2]) && Fits(LsusbPattern[4], g[4]);
    assert Fits(LsusbPattern[6], g[6]) && Fits(LsusbPattern[8], g[8]);
    assert Fits(LsusbPattern[9], g[9]);
  }

  /** One line of `lsusb` output: a record when the line starts with the
      listing pattern, nothing otherwise. Vendor and product ids are four
      lower-case hex digits, the id joins bus and device with a dash, and the
      description is the rest of the line, stripped. */
  function ParseLsusbLine(line: string): (r: Option<Tablet>)
    ensures r.Some? ==>
              && Decimal(r.value.bus) && Decimal(r.value.device)
              && Hex4(r.value.vendorId) && Hex4(r.value.productId)
              && r.value.id == r.value.bus + "-" + r.value.device
              && r.value.status == Connected
    ensures r.Some? ==>
              exists desc :: |desc| >= 1 && '\n' !in desc && r.value.description == Strip(desc)
                             && StartsWith(line, LsusbLine(r.value.bus, r.value.device, r.value.vendorId, r.value.productId, desc))
  {
    match Run(line, 0, LsusbPattern)
    case None => None
    case Some(g) =>
      LsusbMatchSound(line);
      Some(Tablet(g[1] + "-" + g[3], g[1], g[3], g[5], g[7], Strip(g[9]), Connected))
  }

  lemma LsusbPiecesFit(bus: string, device: string, vendor: string, product: string, desc: string)
    requires Decimal(bus) && Decimal(device) && Hex4(vendor) && Hex4(product)
    requires |desc| >= 1 && '\n' !in desc
    ensures FitsAll(LsusbPattern, LsusbPieces(bus, device, vendor, product, desc))
    ensures forall k :: 0 <= k < 10 ==> |LsusbPieces(bus, device, vendor, product, desc)[k]| >= 1
  {
    assert AllIn(desc, NotNewline);
  }

  lemma LsusbPiecesStop(bus: string, device: string, vendor: string, product: string, desc: string)
    ensures var items, pieces := LsusbPattern, LsusbPieces(bus, device, vendor, product, desc);
            forall k :: 0 <= k < |items| - 1 && items[k].Plus? ==> !InClass(pieces[k + 1][0], items[k].cls)
  {
  }

  /** The anchored match of a line of the listing's shape. */
  lemma LsusbRunExact(bus: string, device: string, vendor: string, product: string, desc: string, tail: string)
    requires Decimal(bus) && Decimal(device) && Hex4(vendor) && Hex4(product)
    requires |desc| >= 1 && '\n' !in desc
    requires tail == [] || tail[0] == '\n'
    ensures Run(LsusbLine(bus, device, vendor, product, desc) + tail, 0, LsusbPattern)
            == Some(LsusbPieces(bus, device, vendor, product, desc))
  {
    var line := LsusbLine(bus, device, vendor, product, desc);
    var s := line + tail;
    var pieces := LsusbPieces(bus, device, vendor, product, desc);
    LsusbPiecesConcat(bus, device, vendor, product, desc);
    LsusbPiecesFit(bus, device, vendor, product, desc);
    LsusbPiecesStop(bus, device, vendor, product, desc);
    assert s[0..][..|line|] == line;
    assert |line| == |s| || s[|line|] == '\n';
    RunExact(s, 0, LsusbPattern, pieces);
  }

  /** Every line of the listing's shape is parsed, whatever the vendor, with
      the description running to the end of the line. */
  lemma LsusbLineRoundTrip(bus: string, device: string, vendor: string, product: string, desc: string, tail: string)
    requires Decimal(bus) && Decimal(device) && Hex4(vendor) && Hex4(product)
    requires |desc| >= 1 && '\n' !in desc
    requires tail == [] || tail[0] == '\n'
    ensures ParseLsusbLine(LsusbLine(bus, device, vendor, product, desc) + tail)
            == Some(Tablet(bus + "-" + device, bus, device, vendor, product, Strip(desc), Connected))
  {
    var s := LsusbLine(bus, device, vendor, product, desc) + tail;
    var g := LsusbPieces(bus, device, vendor, product, desc);
    LsusbRunExact(bus, device, vendor, product, desc, tail);
    assert g[1] == bus && g[3] == device && g[5] == vendor && g[7] == product && g[9] == desc;
    assert ParseLsusbLine(s) == Some(Tablet(g[1] + "-" + g[3], g[1], g[3], g[5], g[7], Strip(g[9]), Connected));
  }

  /** Devices reported by a finished `lsusb`: nothing when it could not be
      started or exited non-zero, otherwise one record per matching line, in
      order, with no filtering by vendor. */
  function GetConnectedTablets(listing: Process.Outcome): (r: seq<Tablet>)
    ensures !listing.Succeeded() ==> r == []
    ensures listing.Succeeded() ==> |r| <= |Split(Strip(listing.stdout), '\n')|
    ensures forall t :: t in r ==>
              && Decimal(t.bus) && Decimal(t.device) && Hex4(t.vendorId) && Hex4(t.productId)
              && t.id == t.bus + "-" + t.device && t.status == Connected
  {
    if !listing.Succeeded() then []
    else
      var lines := Split(Strip(listing.stdout), '\n');
      ParsedTabletsWellFormed(lines);
      FilterMap(ParseLsusbLine, lines)
  }

  lemma ParsedTabletsWellFormed(lines: seq<string>)
    ensures forall t :: t in FilterMap(ParseLsusbLine, lines) ==>
              && Decimal(t.bus) && Decimal(t.device) && Hex4(t.vendorId) && Hex4(t.productId)
              && t.id == t.bus + "-" + t.device && t.status == Connected
  {
    forall t | t in FilterMap(ParseLsusbLine, lines)
      ensures && Decimal(t.bus) && Decimal(t.device) && Hex4(t.vendorId) && Hex4(t.productId)
              && t.id == t.bus + "-" + t.device && t.status == Connected
    {
      FilterMapSound(ParseLsusbLine, lines, t);
    }
  }

  // ---------------------------------------------------------------------
  // The listing lsusb prints, as a reference for the parser

  /** A record lsusb can report: well-formed numbers and ids, and a one-line
      description without surrounding whitespace. */
  predicate Reported(t: Tablet)
  {
    && Decimal(t.bus) && Decimal(t.device) && Hex4(t.vendorId) && Hex4(t.productId)
    && |t.description| >= 1 && '\n' !in t.description
    && !IsSpace(t.description[0]) && !IsSpace(t.description[|t.description| - 1])
    && t.id == t.bus + "-" + t.device && t.status == Connected
  }

  function TabletLine(t: Tablet): string
  {
    LsusbLine(t.bus, t.device, t.vendorId, t.productId, t.description)
  }

  function TabletLines(ts: seq<Tablet>): seq<string>
  {
    seq(|ts|, k requires 0 <= k < |ts| => TabletLine(ts[k]))
  }

  /** The output of `lsusb`: one line per device, each ended by a newline. */
  function LsusbOutput(ts: seq<Tablet>): string
  {
    if ts == [] then "" else Join(TabletLines(ts), '\n') + "\n"
  }

  lemma LsusbLineAlone(bus: string, device: string, vendor: string, product: string, desc: string)
    requires Decimal(bus) && Decimal(device) && Hex4(vendor) && Hex4(product)
    requires |desc| >= 1 && '\n' !in desc
    ensures ParseLsusbLine(LsusbLine(bus, device, vendor, product, desc))
            == Some(Tablet(bus + "-" + device, bus, device, vendor, product, Strip(desc), Connected))
  {
    var line := LsusbLine(bus, device, vendor, product, desc);
    assert line + [] == line;
    LsusbLineRoundTrip(bus, device, vendor, product, desc, []);
  }

  lemma TabletLineRoundTrip(t: Tablet)
    requires Reported(t)
    ensures ParseLsusbLine(TabletLine(t)) == Some(t)
  {
    var d := t.description;
    StrippedUnchanged(d);
    LsusbLineAlone(t.bus, t.device, t.vendorId, t.productId, d);
    assert t == Tablet(t.bus + "-" + t.device, t.bus, t.device, t.vendorId, t.productId, Strip(d), Connected);
  }

  lemma StrippedUnchanged(d: string)
    requires |d| >= 1 && !IsSpace(d[0]) && !IsSpace(d[|d| - 1])
    ensures Strip(d) == d
  {
    StripUnique([], d, []);
    assert [] + d + [] == d;
  }

  lemma TabletLinesRoundTrip(ts: seq<Tablet>)
    requires forall t :: t in ts ==> Reported(t)
    ensures FilterMap(ParseLsusbLine, TabletLines(ts)) == ts
  {
    var lines := TabletLines(ts);
    forall k | 0 <= k < |lines|
      ensures ParseLsusbLine(lines[k]) == Some(ts[k])
    {
      assert ts[k] in ts;
      TabletLineRoundTrip(ts[k]);
    }
    FilterMapAll(ParseLsusbLine, lines, ts);
  }

  lemma TabletLineShape(t: Tablet)
    requires Reported(t)
    ensures TrimmedLine(TabletLine(t))
  {
    var d := t.description;
    var l := TabletLine(t);
    assert l == LsusbLine(t.bus, t.device, t.vendorId, t.productId, "") + d;
    assert l[0] == 'B' && l[|l| - 1] == d[|d| - 1];
    assert '\n' !in t.bus by {
      assert forall j :: 0 <= j < |t.bus| ==> IsDigit(t.bus[j]);
    }
    assert '\n' !in t.device by {
      assert forall j :: 0 <= j < |t.device| ==> IsDigit(t.device[j]);
    }
    assert '\n' !in t.vendorId by {
      assert forall j :: 0 <= j < 4 ==> InClass(t.vendorId[j], LowerHex);
    }
    assert '\n' !in t.productId by {
      assert forall j :: 0 <= j < 4 ==> InClass(t.productId[j], LowerHex);
    }
  }

  /** Every device line is a trimmed line. */
  lemma LinesShape(ts: seq<Tablet>)
    requires forall t :: t in ts ==> Reported(t)
    ensures forall k :: 0 <= k < |TabletLines(ts)| ==> TrimmedLine(TabletLines(ts)[k])
  {
    forall k | 0 <= k < |ts|
      ensures TrimmedLine(TabletLine(ts[k]))
    {
      assert ts[k] in ts;
      TabletLineShape(ts[k]);
    }
  }

  /** The lines of a non-empty listing, once stripped and split, are the
      devices' lines. */
  lemma OutputLines(ts: seq<Tablet>)
    requires |ts| >= 1 && forall t :: t in ts ==> Reported(t)
    ensures Split(Strip(LsusbOutput(ts)), '\n') == TabletLines(ts)
  {
    LinesShape(ts);
    assert AllSpace("\n") by {
      assert "\n"[0] == '\n';
    }
    SplitJoinedLines(TabletLines(ts), "\n");
  }

  /** The records of a listing are exactly the devices lsusb reported, in order. */
  lemma ListingRoundTrip(ts: seq<Tablet>, stderr: string)
    requires forall t :: t in ts ==> Reported(t)
    ensures GetConnectedTablets(Process.Exited(0, LsusbOutput(ts), stderr)) == ts
  {
    if ts == [] {
      StripUnique([], [], []);
      assert Split([], '\n') == [[]];
      FilterMapSingle(ParseLsusbLine, []);
    } else {
      OutputLines(ts);
      TabletLinesRoundTrip(ts);
    }
  }

  // ---------------------------------------------------------------------
  // Descriptor strings in the verbose dump

  /** `KEY\s+\d+\s+(.+)` when `gap` is `Space`; the group is item 4. */
  function DescriptorPattern(key: string, gap: CharClass): seq<Item>
  {
    [Lit(key), Plus(gap), Plus(Digit), Plus(gap), Plus(NotNewline)]
  }

  /** The two readings of the whitespace between key, index and string. */
  predicate GapClass(gap: CharClass)
  {
    gap == Space || gap == HorizontalSpace
  }

  /** What the leftmost descriptor match consumed: the key, a gap, the
      string index, a gap, and a non-empty rest of a line. */
  lemma DescriptorMatchSound(content: string, key: string, gap: CharClass, f: Found)
    requires Search(content, DescriptorPattern(key, gap)) == Some(f)
    ensures |f.texts| == 5 && f.start <= |content|
    ensures OccursAt(content, key, f.start)
    ensures f.texts[0] == key && AllIn(f.texts[1], gap) && Decimal(f.texts[2]) && AllIn(f.texts[3], gap)
    ensures |f.texts[4]| >= 1 && '\n' !in f.texts[4]
    ensures StartsWith(content[f.start..], Concat(f.texts))
  {
    var items := DescriptorPattern(key, gap);
    SearchSound(content, items, f);
    var t := f.texts;
    assert Fits(items[0], t[0]) && Fits(items[1], t[1]) && Fits(items[2], t[2]);
    assert Fits(items[3], t[3]) && Fits(items[4], t[4]);
    assert Concat(t) == t[0] + Concat(t[1..]);
    StartsWithSplit(content, f.start, t[0], Concat(t[1..]));
  }

  /** The descriptor string exactly as the dump is searched: the stripped
      rest of the line after the first `KEY <ws> <digits> <ws>`, where the
      whitespace may run across line breaks. */
  function DescriptorAsWritten(content: string, key: string): (r: Option<string>)
    ensures r.Some? ==> Contains(content, key) && '\n' !in r.value
  {
    match Search(content, DescriptorPattern(key, Space))
    case None => None
    case Some(f) =>
      DescriptorMatchSound(content, key, Space, f);
      StripNoChar(f.texts[4], '\n');
      Some(Strip(f.texts[4]))
  }

  /** The descriptor string read from a single line: as above, but the
      whitespace around the string index may not contain a line break. */
  function DescriptorOnLine(content: string, key: string): (r: Option<string>)
    ensures r.Some? ==> Contains(content, key) && '\n' !in r.value
  {
    match Search(content, DescriptorPattern(key, HorizontalSpace))
    case None => None
    case Some(f) =>
      DescriptorMatchSound(content, key, HorizontalSpace, f);
      StripNoChar(f.texts[4], '\n');
      Some(Strip(f.texts[4]))
  }

  /** The line-local search never reads past the end of the key's line: the
      whole matched text is free of line breaks. */
  lemma DescriptorOnOneLine(content: string, key: string)
    requires '\n' !in key
    requires Search(content, DescriptorPattern(key, HorizontalSpace)).Some?
    ensures var f := Search(content, DescriptorPattern(key, HorizontalSpace)).value;
            '\n' !in Concat(f.texts) && StartsWith(content[f.start..], Concat(f.texts))
  {
    var f := Search(content, DescriptorPattern(key, HorizontalSpace)).value;
    DescriptorMatchSound(content, key, HorizontalSpace, f);
    forall k | 0 <= k < |f.texts|
      ensures '\n' !in f.texts[k]
    {
      if k == 1 || k == 3 || k == 2 {
        assert forall j :: 0 <= j < |f.texts[k]| ==> f.texts[k][j] != '\n' by {
          assert AllIn(f.texts[k], if k == 2 then Digit else HorizontalSpace);
        }
      }
    }
    ConcatNoChar(f.texts, '\n');
  }

  /** A descriptor line `KEY <gap> <index> <gap> <string>` at `i`, ending at a
      line break or at the end of the dump, is cut into the pattern's pieces. */
  lemma DescriptorShaped(gap: CharClass, c: string, i: nat, key: string, sp1: string, idx: string,
                         sp2: string, text: string)
    requires GapClass(gap) && |key| >= 1
    requires |sp1| >= 1 && AllIn(sp1, gap) && Decimal(idx) && |sp2| >= 1 && AllIn(sp2, gap)
    requires |text| >= 1 && !IsSpace(text[0]) && '\n' !in text
    requires var m := key + sp1 + idx + sp2 + text;
             i + |m| <= |c| && c[i..i + |m|] == m && (i + |m| == |c| || c[i + |m|] == '\n')
    ensures Shaped(c, i, DescriptorPattern(key, gap), [key, sp1, idx, sp2, text])
  {
    var items := DescriptorPattern(key, gap);
    var pieces := [key, sp1, idx, sp2, text];
    var m := key + sp1 + idx + sp2 + text;
    ConcatFive(key, sp1, idx, sp2, text);
    assert c[i..][..|m|] == c[i..i + |m|];
    assert AllIn(text, NotNewline);
    assert FitsAll(items, pieces);
    assert !InClass(idx[0], gap) && !InClass(sp2[0], Digit) && !InClass(text[0], gap);
  }

  /** A descriptor line after text where the key does not start: both
      readings find it, and the value is the stripped string. */
  lemma DescriptorShapedSearch(gap: CharClass, before: string, key: string, sp1: string, idx: string,
                               sp2: string, text: string, tail: string)
    requires GapClass(gap) && |key| >= 1
    requires |sp1| >= 1 && AllIn(sp1, gap) && Decimal(idx) && |sp2| >= 1 && AllIn(sp2, gap)
    requires |text| >= 1 && !IsSpace(text[0]) && '\n' !in text
    requires tail == [] || tail[0] == '\n'
    requires forall q :: 0 <= q < |before| ==> !OccursAt(before + key + sp1 + idx + sp2 + text + tail, key, q)
    ensures Search(before + key + sp1 + idx + sp2 + text + tail, DescriptorPattern(key, gap))
            == Some(Found(|before|, [key, sp1, idx, sp2, text]))
  {
    var c := before + key + sp1 + idx + sp2 + text + tail;
    var i := |before|;
    var items := DescriptorPattern(key, gap);
    var pieces := [key, sp1, idx, sp2, text];
    var m := key + sp1 + idx + sp2 + text;
    assert c == before + m + tail;
    assert c[i..i + |m|] == m;
    DescriptorShaped(gap, c, i, key, sp1, idx, sp2, text);
    RunExact(c, i, items, pieces);
    forall q | 0 <= q < i
      ensures Run(c, q, items).None?
    {
      LitFails(c, q, key, items[1..]);
      assert items == [Lit(key)] + items[1..];
    }
    SearchAt(c, items, i, pieces);
  }

  /** A well-formed descriptor line at the start of the dump is read the same
      way by both searches. */
  lemma DescriptorReadings(key: string, sp1: string, idx: string, sp2: string, text: string, tail: string)
    requires |key| >= 1
    requires |sp1| >= 1 && AllIn(sp1, HorizontalSpace) && Decimal(idx) && |sp2| >= 1 && AllIn(sp2, HorizontalSpace)
    requires |text| >= 1 && !IsSpace(text[0]) && '\n' !in text
    requires tail == [] || tail[0] == '\n'
    ensures DescriptorOnLine(key + sp1 + idx + sp2 + text + tail, key) == Some(Strip(text))
    ensures DescriptorAsWritten(key + sp1 + idx + sp2 + text + tail, key) == Some(Strip(text))
  {
    assert [] + key + sp1 + idx + sp2 + text + tail == key + sp1 + idx + sp2 + text + tail;
    DescriptorShapedSearch(HorizontalSpace, [], key, sp1, idx, sp2, text, tail);
    assert AllIn(sp1, Space) && AllIn(sp2, Space) by {
      assert forall j :: 0 <= j < |sp1| ==> InClass(sp1[j], HorizontalSpace);
      assert forall j :: 0 <= j < |sp2| ==> InClass(sp2[j], HorizontalSpace);
    }
    DescriptorShapedSearch(Space, [], key, sp1, idx, sp2, text, tail);
  }

  /** As written, a descriptor whose string index is followed by nothing on
      its line takes its value from the next line. */
  lemma DescriptorAsWrittenCrossesLines(key: string, idx: string, indent: string, next: string)
    requires |key| >= 1 && Decimal(idx) && AllIn(indent, HorizontalSpace)
    requires |next| >= 1 && !IsSpace(next[0]) && '\n' !in next
    ensures DescriptorAsWritten(key + " " + idx + " \n" + indent + next, key) == Some(Strip(next))
  {
    var sp2 := " \n" + indent;
    assert AllIn(sp2, Space) by {
      assert forall j :: 2 <= j < |sp2| ==> sp2[j] == indent[j - 2];
      assert forall j :: 0 <= j < |indent| ==> InClass(indent[j], HorizontalSpace);
    }
    assert [] + key + " " + idx + sp2 + next + [] == key + " " + idx + " \n" + indent + next;
    DescriptorShapedSearch(Space, [], key, " ", idx, sp2, next, []);
  }

  /** The same dump read line by line: the index line has no string, so no
      value is reported unless the key appears again. */
  lemma DescriptorOnLineStaysOnLine(content: string, key: string, idx: string, indent: string, next: string)
    requires |key| >= 1 && Decimal(idx) && AllIn(indent, HorizontalSpace)
    requires |next| >= 1 && !IsSpace(next[0]) && '\n' !in next
    requires content == key + " " + idx + " \n" + indent + next
    requires forall q :: 0 < q <= |content| ==> !OccursAt(content, key, q)
    ensures DescriptorOnLine(content, key) == None
  {
    var items := DescriptorPattern(key, HorizontalSpace);
    var a := |key| + 1;
    assert content[..|key|] == key;
    assert content[a..a + |idx|] == idx;
    assert content[a] == idx[0];
    IndexLineFails(content, key, idx);
    forall q | 0 <= q <= |content|
      ensures Run(content, q, items).None?
    {
      if q > 0 {
        LitFails(content, q, key, items[1..]);
        assert items == [Lit(key)] + items[1..];
      }
    }
    assert Search(content, items).None?;
  }

  /** The line-local pattern does not match at a key whose index is followed
      by a single space and a line break. */
  lemma IndexLineFails(content: string, key: string, idx: string)
    requires Decimal(idx) && |key| + |idx| + 3 <= |content| && !IsSpace(content[|key| + 1])
    requires OccursAt(content, key, 0) && content[|key|] == ' '
    requires content[|key| + 1..|key| + 1 + |idx|] == idx
    requires content[|key| + 1 + |idx|] == ' ' && content[|key| + 2 + |idx|] == '\n'
    ensures Run(content, 0, DescriptorPattern(key, HorizontalSpace)).None?
  {
    var r2: seq<Item> := [Plus(Digit), Plus(HorizontalSpace), Plus(NotNewline)];
    var r1 := [Plus(HorizontalSpace)] + r2;
    assert DescriptorPattern(key, HorizontalSpace) == [Lit(key)] + r1;
    var a := |key| + 1;
    BlankAfterIndex(content, a + |idx|);
    IndexRunFails(content, a, idx);
    assert Run(content, a, r2).None?;
    GapThenFail(content, |key|, r2);
    assert Run(content, |key|, r1).None?;
    LitStep(content, 0, key, r1);
  }

  lemma GapThenFail(content: string, i: nat, rest: seq<Item>)
    requires i + 1 < |content| && content[i] == ' ' && !IsSpace(content[i + 1])
    requires Run(content, i + 1, rest).None?
    ensures Run(content, i, [Plus(HorizontalSpace)] + rest).None?
  {
    assert content[i..i + 1] == " ";
    PlusStep(content, i, HorizontalSpace, 1, rest);
  }

  /** `[^\S\n]+(.+)` at a space followed by a line break. */
  lemma BlankAfterIndex(content: string, b: nat)
    requires b + 1 < |content| && content[b] == ' ' && content[b + 1] == '\n'
    ensures Run(content, b, [Plus(HorizontalSpace), Plus(NotNewline)]).None?
  {
    var r4: seq<Item> := [Plus(NotNewline)];
    assert r4 == [Plus(NotNewline)] + [];
    PlusFails(content, b + 1, NotNewline, []);
    assert content[b..b + 1] == " ";
    PlusStep(content, b, HorizontalSpace, 1, r4);
    assert [Plus(HorizontalSpace), Plus(NotNewline)] == [Plus(HorizontalSpace)] + r4;
  }

  /** `\d+[^\S\n]+(.+)` at the index fails when the gap pattern fails
      right after it. */
  lemma IndexRunFails(content: string, a: nat, idx: string)
    requires Decimal(idx) && a + |idx| < |content| && content[a..a + |idx|] == idx
    requires content[a + |idx|] == ' '
    requires Run(content, a + |idx|, [Plus(HorizontalSpace), Plus(NotNewline)]).None?
    ensures Run(content, a, [Plus(Digit), Plus(HorizontalSpace), Plus(NotNewline)]).None?
  {
    var r4: seq<Item> := [Plus(NotNewline)];
    var r3: seq<Item> := [Plus(HorizontalSpace), Plus(NotNewline)];
    assert r3 == [Plus(HorizontalSpace)] + r4;
    var b := a + |idx|;
    forall j | a < j < b
      ensures Run(content, j, r3).None?
    {
      assert content[j] == idx[j - a];
      PlusFails(content, j, HorizontalSpace, r4);
    }
    PlusStep(content, a, Digit, |idx|, r3);
    assert [Plus(Digit), Plus(HorizontalSpace), Plus(NotNewline)] == [Plus(Digit)] + r3;
  }

  /** The serial number of a device without one, read from the dump as
      written: the next descriptor line becomes the serial. */
  lemma SerialReadsNextLine()
    ensures var key, idx, indent, next := "iSerial", "0", "  ", "bNumConfigurations 1";
            DescriptorAsWritten(key + " " + idx + " \n" + indent + next, key) == Some(next)
  {
    var key, idx, indent, next := "iSerial", "0", "  ", "bNumConfigurations 1";
    SerialLiterals();
    DescriptorAsWrittenCrossesLines(key, idx, indent, next);
    StrippedUnchanged(next);
  }

  /** The literal facts the serial example rests on. */
  lemma SerialLiterals()
    ensures AllIn("  ", HorizontalSpace) && Decimal("0")
    ensures var next := "bNumConfigurations 1";
            |next| >= 1 && !IsSpace(next[0]) && !IsSpace(next[|next| - 1]) && '\n' !in next
  {
    var indent, idx := "  ", "0";
    assert indent[0] == ' ' && indent[1] == ' ';
    assert idx[0] == '0';
  }

  const ManufacturerKey: string := "iManufacturer"
  const ProductKey: string := "iProduct"
  const SerialKey: string := "iSerial"

  /** `field` is present exactly when a value was found, and holds it. */
  predicate Reflects(details: map<string, string>, field: string, found: Option<string>)
  {
    && (field in details <==> found.Some?)
    && (found.Some? && field in details ==> details[field] == found.value)
  }

  function WithFound(details: map<string, string>, field: string, found: Option<string>): map<string, string>
  {
    if found.Some? then details[field := found.value] else details
  }

  /** `get_device_details`: nothing when `lsusb -v` could not be started or
      exited non-zero; otherwise the raw dump, plus each descriptor string
      found in it, read line by line. */
  function GetDeviceDetails(dump: Process.Outcome): (r: map<string, string>)
    ensures !dump.Succeeded() ==> r == map[]
    ensures dump.Succeeded() ==> r.Keys <= {"raw_info", "manufacturer", "product", "serial"}
    ensures dump.Succeeded() ==> "raw_info" in r && r["raw_info"] == dump.stdout
    ensures dump.Succeeded() ==> Reflects(r, "manufacturer", DescriptorOnLine(dump.stdout, ManufacturerKey))
    ensures dump.Succeeded() ==> Reflects(r, "product", DescriptorOnLine(dump.stdout, ProductKey))
    ensures dump.Succeeded() ==> Reflects(r, "serial", DescriptorOnLine(dump.stdout, SerialKey))
  {
    if !dump.Succeeded() then map[]
    else
      var content := dump.stdout;
      var details := map["raw_info" := content];
      var details := WithFound(details, "manufacturer", DescriptorOnLine(content, ManufacturerKey));
      var details := WithFound(details, "product", DescriptorOnLine(content, ProductKey));
      WithFound(details, "serial", DescriptorOnLine(content, SerialKey))
  }

  /** A serial descriptor line in the dump yields its string. */
  lemma SerialFromDump(before: string, sp1: string, idx: string, sp2: string, text: string, tail: string, stderr: string)
    requires |sp1| >= 1 && AllIn(sp1, HorizontalSpace) && Decimal(idx) && |sp2| >= 1 && AllIn(sp2, HorizontalSpace)
    requires |text| >= 1 && !IsSpace(text[0]) && '\n' !in text
    requires tail == [] || tail[0] == '\n'
    requires forall q :: 0 <= q < |before| ==> !OccursAt(before + SerialKey + sp1 + idx + sp2 + text + tail, SerialKey, q)
    ensures var r := GetDeviceDetails(Process.Exited(0, before + SerialKey + sp1 + idx + sp2 + text + tail, stderr));
            "serial" in r && r["serial"] == Strip(text)
  {
    DescriptorShapedSearch(HorizontalSpace, before, SerialKey, sp1, idx, sp2, text, tail);
  }
}
