/**
 * The normalisation step of the news screen: raw records from the data
 * provider become display records with a title-cased title, a relative
 * timestamp "Hace {M} minutos" and a description cut to 100 characters
 * plus "...".
 *
 * Instants are integer milliseconds. The wall clock is not read here: each
 * call takes the reading as a parameter.
 */
module News {
  import opened Wrappers
  import opened Segments
  import opened Decimal

  // ---------------------------------------------------------------------------
  // Title formatter: capitalizarPrimeraLetraPorPalabra
  // ---------------------------------------------------------------------------

  /** `toUpperCase` on one character, for the ASCII letters a-z; every other character is kept. */
  function Upper(c: char): (u: char)
    ensures 'a' <= c <= 'z' ==> u as int - 'A' as int == c as int - 'a' as int
    ensures !('a' <= c <= 'z') ==> u == c
    ensures !('a' <= u <= 'z')
    ensures u == Space <==> c == Space
  {
    if 'a' <= c <= 'z' then (c as int - 'a' as int + 'A' as int) as char else c
  }

  /** Upper-casing an upper-cased character changes nothing. */
  lemma UpperIdempotent(c: char)
    ensures Upper(Upper(c)) == Upper(c)
  {
  }

  /**
   * `str.charAt(0).toUpperCase() + str.slice(1)`: the first character
   * upper-cased, the rest kept; the empty segment stays empty.
   */
  function CapitalizeWord(w: string): (r: string)
    ensures |r| == |w|
    ensures w != [] ==> r[0] == Upper(w[0]) && r[1..] == w[1..]
    ensures Space !in w ==> Space !in r
  {
    if w == [] then [] else [Upper(w[0])] + w[1..]
  }

  /** The `.map` over the segments. */
  function CapitalizeWords(ws: seq<string>): (rs: seq<string>)
    ensures |rs| == |ws|
    ensures forall k :: 0 <= k < |ws| ==> rs[k] == CapitalizeWord(ws[k])
  {
    if ws == [] then [] else [CapitalizeWord(ws[0])] + CapitalizeWords(ws[1..])
  }

  /**
   * `texto.split(" ").map(...).join(" ")`. It agrees with the character-by-character
   * reference below: it keeps the length and every space, upper-cases exactly
   * the characters that start a word (the first one, and every one after a
   * space) and keeps all others.
   */
  function Capitalize(texto: string): (r: string)
    ensures r == CapitalizeFrom(texto, true)
    ensures |r| == |texto|
    ensures forall i :: 0 <= i < |texto| ==>
      r[i] == if i == 0 || texto[i - 1] == Space then Upper(texto[i]) else texto[i]
  {
    var ws := Split(texto);
    CapitalizeFromSplit(texto, true);
    assert CapitalizeWords(ws) == [CapitalizeWord(ws[0])] + CapitalizeWords(ws[1..]);
    Join(CapitalizeWords(ws))
  }

  /**
   * Reference definition, character by character: a character is upper-cased
   * exactly when it starts a word, that is, when it follows a space or (if
   * `atStart`) is the first character.
   */
  function CapitalizeFrom(s: string, atStart: bool): (r: string)
    ensures |r| == |s|
    ensures forall i :: 0 <= i < |s| ==>
      r[i] == if (if i == 0 then atStart else s[i - 1] == Space) then Upper(s[i]) else s[i]
    decreases |s|
  {
    if s == [] then []
    else [if atStart then Upper(s[0]) else s[0]] + CapitalizeFrom(s[1..], s[0] == Space)
  }

  /** The character-by-character definition agrees with split/map/join, segment by segment. */
  lemma {:induction false} CapitalizeFromSplit(s: string, atStart: bool)
    ensures var ws := Split(s);
      CapitalizeFrom(s, atStart)
      == Join([if atStart then CapitalizeWord(ws[0]) else ws[0]] + CapitalizeWords(ws[1..]))
    decreases |s|
  {
    if s != [] {
      var rest := Split(s[1..]);
      if s[0] == Space {
        CapitalizeFromSplit(s[1..], true);
        CapitalizeFromSpaceStep(s, atStart, rest);
      } else {
        CapitalizeFromSplit(s[1..], false);
        CapitalizeFromWordStep(s, atStart, rest);
      }
    }
  }

  /** The inductive step of `CapitalizeFromSplit` at a space, which starts a new word. */
  lemma CapitalizeFromSpaceStep(s: string, atStart: bool, rest: seq<string>)
    requires s != [] && s[0] == Space && rest == Split(s[1..])
    requires CapitalizeFrom(s[1..], true)
      == Join([CapitalizeWord(rest[0])] + CapitalizeWords(rest[1..]))
    ensures var ws := Split(s);
      CapitalizeFrom(s, atStart)
      == Join([if atStart then CapitalizeWord(ws[0]) else ws[0]] + CapitalizeWords(ws[1..]))
  {
    var ws := Split(s);
    var words := CapitalizeWords(rest);
    var first := if atStart then CapitalizeWord(ws[0]) else ws[0];
    assert ws[0] == [] && ws[1..] == rest by {
      assert ws == [[]] + rest;
    }
    assert first == [];
    assert CapitalizeFrom(s, atStart) == [Space] + Join(words) by {
      assert CapitalizeFrom(s, atStart) == [Space] + CapitalizeFrom(s[1..], true);
      assert words == [CapitalizeWord(rest[0])] + CapitalizeWords(rest[1..]);
    }
    assert Join([first] + words) == [Space] + Join(words) by {
      JoinCons([], words);
    }
  }

  /** The inductive step of `CapitalizeFromSplit` at a character that continues the first word. */
  lemma CapitalizeFromWordStep(s: string, atStart: bool, rest: seq<string>)
    requires s != [] && s[0] != Space && rest == Split(s[1..])
    requires CapitalizeFrom(s[1..], false) == Join([rest[0]] + CapitalizeWords(rest[1..]))
    ensures var ws := Split(s);
      CapitalizeFrom(s, atStart)
      == Join([if atStart then CapitalizeWord(ws[0]) else ws[0]] + CapitalizeWords(ws[1..]))
  {
    var ws := Split(s);
    var c := if atStart then Upper(s[0]) else s[0];
    var tail := CapitalizeWords(rest[1..]);
    var first := if atStart then CapitalizeWord(ws[0]) else ws[0];
    assert ws[0] == [s[0]] + rest[0] && ws[1..] == rest[1..] by {
      assert ws == [[s[0]] + rest[0]] + rest[1..];
    }
    assert first == [c] + rest[0] by {
      assert ws[0][1..] == rest[0];
    }
    assert CapitalizeWords(ws[1..]) == tail;
    var joined := Join([rest[0]] + tail);
    assert CapitalizeFrom(s, atStart) == [c] + joined by {
      assert CapitalizeFrom(s, atStart) == [c] + CapitalizeFrom(s[1..], false);
    }
    JoinPrepend(c, rest[0], tail);
  }

  /** The empty title stays empty. */
  lemma CapitalizeEmpty()
    ensures Capitalize([]) == []
  {
    assert |Capitalize([])| == 0;
  }

  /**
   * Capitalising keeps the space structure: the result splits into as many
   * segments as the input, and each output segment is the input segment with
   * its first character upper-cased (an empty segment passes through).
   */
  lemma CapitalizeSegments(s: string)
    ensures |Split(Capitalize(s))| == |Split(s)|
    ensures forall k :: 0 <= k < |Split(s)| ==>
      Split(Capitalize(s))[k] == CapitalizeWord(Split(s)[k])
  {
    var ws := Split(s);
    var cs := CapitalizeWords(ws);
    forall k | 0 <= k < |cs| ensures Space !in cs[k] {
      assert Space !in ws[k];
    }
    assert SpaceFree(cs);
    SplitJoin(cs);
  }

  /** Capitalising twice is capitalising once. */
  lemma CapitalizeIdempotent(s: string)
    ensures Capitalize(Capitalize(s)) == Capitalize(s)
  {
    var c := Capitalize(s);
    assert |Capitalize(c)| == |c| == |s|;
    forall i | 0 <= i < |s| ensures Capitalize(c)[i] == c[i] {
      if i > 0 {
        assert c[i - 1] == if i - 1 == 0 || s[i - 2] == Space then Upper(s[i - 1]) else s[i - 1];
        assert c[i - 1] == Space <==> s[i - 1] == Space;
      }
      UpperIdempotent(s[i]);
    }
  }

  // ---------------------------------------------------------------------------
  // Elapsed-time calculator: obtenerTiempoTranscurridoEnMinutos
  // ---------------------------------------------------------------------------

  /** `1000 * 60`. */
  const MillisPerMinute: int := 1000 * 60

  /**
   * `Math.floor((now - fecha) / (1000 * 60))`: the whole minutes from `fecha`
   * to `now`, rounded down, so a future `fecha` gives a negative count.
   */
  function ElapsedMinutes(now: int, fecha: int): (m: int)
    ensures m * MillisPerMinute <= now - fecha < (m + 1) * MillisPerMinute
    ensures m >= 0 <==> fecha <= now
  {
    (now - fecha) / MillisPerMinute
  }

  /** The floor is the only count of minutes that brackets the difference. */
  lemma ElapsedMinutesUnique(now: int, fecha: int, m: int)
    requires m * MillisPerMinute <= now - fecha < (m + 1) * MillisPerMinute
    ensures m == ElapsedMinutes(now, fecha)
  {
  }

  /** A later clock reading never gives fewer minutes. */
  lemma ElapsedMinutesMonotone(now: int, later: int, fecha: int)
    requires now <= later
    ensures ElapsedMinutes(now, fecha) <= ElapsedMinutes(later, fecha)
  {
  }

  // ---------------------------------------------------------------------------
  // Truncator: acortarTexto
  // ---------------------------------------------------------------------------

  const Ellipsis: string := "..."

  /** Where `substring(0, n)` stops: `n` clamped into `[0, len]`. */
  function SubstringEnd(n: int, len: nat): (e: nat)
    ensures e <= len
    ensures 0 <= n <= len ==> e == n
    ensures n < 0 ==> e == 0
    ensures n > len ==> e == len
  {
    if n < 0 then 0 else if n > len then len else n
  }

  /**
   * `texto.substring(0, n) + "..."`: the first `min(n, |texto|)` characters
   * (none for a negative `n`) followed by "...". A text that fits still gets
   * the ellipsis; a longer one is cut to a proper prefix of length `n`.
   */
  function Shorten(texto: string, n: int): (r: string)
    ensures |r| == (if n < 0 then 0 else if n < |texto| then n else |texto|) + 3
    ensures r[|r| - 3..] == Ellipsis
    ensures r[..|r| - 3] <= texto
    ensures |texto| <= n ==> r == texto + Ellipsis
    ensures 0 <= n < |texto| ==> r[..|r| - 3] == texto[..n] && |r| - 3 < |texto|
  {
    assert texto[..|texto|] == texto;
    texto[..SubstringEnd(n, |texto|)] + Ellipsis
  }

  // ---------------------------------------------------------------------------
  // The relative timestamp label
  // ---------------------------------------------------------------------------

  const LabelPrefix: string := "Hace "
  const LabelSuffix: string := " minutos"

  /**
   * `` `Hace ${minutos} minutos` ``: the prefix, the count as `IntToString`
   * prints it (canonical digits, a sign only for negatives) and the suffix.
   * The label names exactly its minute count: reading the count back gives
   * `minutes`, so two counts never share a label.
   */
  function ElapsedLabel(minutes: int): (text: string)
    ensures text == LabelPrefix + IntToString(minutes) + LabelSuffix
    ensures LabelMinutes(text) == Some(minutes)
  {
    var digits := IntToString(minutes);
    var text := LabelPrefix + digits + LabelSuffix;
    assert text[..5] == LabelPrefix;
    assert text[|text| - 8..] == LabelSuffix;
    assert text[5..|text| - 8] == digits;
    ParseIntToString(minutes);
    text
  }

  /** Reads the minute count back out of a label, if it has the label's form. */
  function LabelMinutes(text: string): Option<int>
  {
    var p, q := |LabelPrefix|, |LabelSuffix|;
    if |text| >= p + q && text[..p] == LabelPrefix && text[|text| - q..] == LabelSuffix
    then ParseInt(text[p..|text| - q])
    else None
  }

  // ---------------------------------------------------------------------------
  // Records and the normalising map
  // ---------------------------------------------------------------------------

  /** A news record as the data provider supplies it; `fecha` is an instant in milliseconds. */
  datatype RawNews = RawNews(
    id: int,
    titulo: string,
    descripcion: string,
    fecha: int,
    esPremium: bool,
    imagen: string)

  /** A news record ready for display. */
  datatype NormalizedNews = NormalizedNews(
    id: int,
    titulo: string,
    descripcion: string,
    fecha: string,
    esPremium: bool,
    imagen: string,
    descripcionCorta: string)

  /** How many characters of the description the card shows. */
  const ShortLength: int := 100

  /**
   * The callback of `respuesta.map`, given the clock reading taken while it
   * runs. It keeps the raw record's id, description, premium flag and image;
   * the title is upper-cased exactly at word starts, with its length kept; the
   * label is "Hace {M} minutos" with the elapsed minutes M printed in decimal,
   * and reads back as M; the short description is the
   * first `min(100, |descripcion|)` characters of the description followed by
   * "...".
   */
  function NormalizeNews(noticia: RawNews, now: int): (n: NormalizedNews)
    ensures n.id == noticia.id
    ensures n.descripcion == noticia.descripcion
    ensures n.esPremium == noticia.esPremium
    ensures n.imagen == noticia.imagen
    ensures |n.titulo| == |noticia.titulo|
    ensures forall j :: 0 <= j < |noticia.titulo| ==>
      n.titulo[j] == if j == 0 || noticia.titulo[j - 1] == Space then Upper(noticia.titulo[j]) else noticia.titulo[j]
    ensures n.fecha == ElapsedLabel(ElapsedMinutes(now, noticia.fecha))
    ensures LabelMinutes(n.fecha) == Some(ElapsedMinutes(now, noticia.fecha))
    ensures |n.descripcionCorta|
      == (if |noticia.descripcion| < ShortLength then |noticia.descripcion| else ShortLength) + 3
    ensures n.descripcionCorta[|n.descripcionCorta| - 3..] == Ellipsis
    ensures n.descripcionCorta[..|n.descripcionCorta| - 3] <= noticia.descripcion
  {
    NormalizedNews(
      noticia.id,
      Capitalize(noticia.titulo),
      noticia.descripcion,
      ElapsedLabel(ElapsedMinutes(now, noticia.fecha)),
      noticia.esPremium,
      noticia.imagen,
      Shorten(noticia.descripcion, ShortLength))
  }

  /**
   * `respuesta.map(...)`. The clock is read once per record, so there is one
   * reading per record, in order.
   */
  function NormalizeAll(respuesta: seq<RawNews>, clock: seq<int>): (data: seq<NormalizedNews>)
    requires |clock| == |respuesta|
    ensures |data| == |respuesta|
    ensures forall i :: 0 <= i < |data| ==> data[i] == NormalizeNews(respuesta[i], clock[i])
  {
    seq(|respuesta|, i requires 0 <= i < |respuesta| => NormalizeNews(respuesta[i], clock[i]))
  }

  /** Ids that were distinct (the list key) stay distinct. */
  lemma NormalizeAllKeepsIdsDistinct(respuesta: seq<RawNews>, clock: seq<int>)
    requires |clock| == |respuesta|
    requires forall i, j :: 0 <= i < j < |respuesta| ==> respuesta[i].id != respuesta[j].id
    ensures var data := NormalizeAll(respuesta, clock);
      forall i, j :: 0 <= i < j < |data| ==> data[i].id != data[j].id
  {
  }

  /** The title of the worked example below splits into two words. */
  lemma SplitExample(titulo: string)
    requires titulo == "homero simpson"
    ensures Split(titulo) == ["homero", "simpson"]
  {
    var homero, simpson := "homero", "simpson";
    assert titulo == homero + [Space] + simpson;
    SplitWordThenSpace(homero, simpson);
    SplitSpaceFreePrefix(simpson, []);
    assert simpson + [] == simpson;
  }

  /** Each word of that title gets its initial upper-cased. */
  lemma CapitalizeWordsExample(ws: seq<string>)
    requires ws == ["homero", "simpson"]
    ensures CapitalizeWords(ws) == ["Homero", "Simpson"]
  {
    var cs := CapitalizeWords(ws);
    assert cs[0] == CapitalizeWord("homero") == "Homero";
    assert cs[1] == CapitalizeWord("simpson") == "Simpson";
  }

  /** The title of the worked example below, formatted. */
  lemma CapitalizeExample(titulo: string)
    requires titulo == "homero simpson"
    ensures Capitalize(titulo) == "Homero Simpson"
  {
    SplitExample(titulo);
    CapitalizeWordsExample(Split(titulo));
    var homer, simpson := "Homero", "Simpson";
    JoinCons(homer, [simpson]);
    assert homer + [Space] + simpson == "Homero Simpson";
  }

  /**
   * A worked example: a record two minutes and five seconds old, whose
   * description fits in 100 characters, gets a capitalised title,
   * "Hace 2 minutos", and the whole description followed by "...".
   */
  lemma NormalizeNewsExample(noticia: RawNews, now: int, descripcion: string)
    requires |descripcion| <= ShortLength
    requires noticia == RawNews(1, "homero simpson", descripcion, now - 125000, false, "x.png")
    ensures var n := NormalizeNews(noticia, now);
      && n.titulo == "Homero Simpson"
      && n.fecha == "Hace 2 minutos"
      && n.descripcionCorta == descripcion + "..."
      && n.id == 1 && n.descripcion == descripcion && !n.esPremium && n.imagen == "x.png"
  {
    var n := NormalizeNews(noticia, now);
    assert n.titulo == "Homero Simpson" by {
      CapitalizeExample(noticia.titulo);
    }
    assert n.fecha == "Hace 2 minutos" by {
      ElapsedMinutesUnique(now, noticia.fecha, 2);
      ElapsedLabelExample(ElapsedMinutes(now, noticia.fecha));
    }
    assert n.descripcionCorta == descripcion + "...";
  }

  /** The label of the worked example above. */
  lemma ElapsedLabelExample(minutes: int)
    requires minutes == 2
    ensures ElapsedLabel(minutes) == "Hace 2 minutos"
  {
    assert IntToString(minutes) == "2";
  }
}
