/** The Mermaid diagram card (`src/components/blog/MermaidDiagramCard.tsx`): the
    graph id made from React's component id, the load-once state of the Mermaid
    library, and what the card shows as rendering settles. The library's import
    and its renderer are parameters. */
module MermaidDiagramCard {
  import opened Wrappers
  import opened JsText

  const IdPrefix: string := "mermaid-"
  const RenderFailed: string := "Mermaid diagram을 렌더링하지 못했습니다."

  // ---------------------------------------------------------------------------
  // Graph id

  /** The characters of `[a-zA-Z0-9_-]`. */
  predicate IsIdChar(c: char)
  {
    IsAlnum(c) || c == '_' || c == '-'
  }

  /** `replace(/[^a-zA-Z0-9_-]/g, '')`: the id characters of `s`, in order, each
      as often as it occurs. */
  function KeepIdChars(s: string): (r: string)
    ensures |r| <= |s|
    ensures forall i :: 0 <= i < |r| ==> IsIdChar(r[i])
    decreases |s|
  {
    if s == [] then []
    else
      (if IsIdChar(s[0]) then [s[0]] else []) + KeepIdChars(s[1..])
  }

  /** Filtering works piece by piece, so the kept characters keep their order. */
  lemma {:induction false} KeepIdCharsAppend(a: string, b: string)
    ensures KeepIdChars(a + b) == KeepIdChars(a) + KeepIdChars(b)
    decreases |a|
  {
    if a != [] {
      var head := if IsIdChar(a[0]) then [a[0]] else [];
      assert (a + b)[0] == a[0] && (a + b)[1..] == a[1..] + b;
      assert KeepIdChars(a + b) == head + KeepIdChars(a[1..] + b);
      KeepIdCharsAppend(a[1..], b);
      assert KeepIdChars(a) == head + KeepIdChars(a[1..]);
    } else {
      assert a + b == b;
    }
  }

  /** Each id character is kept as often as it occurs, and nothing else is. */
  lemma {:induction false} KeepIdCharsCounts(s: string, c: char)
    ensures multiset(KeepIdChars(s))[c] == if IsIdChar(c) then multiset(s)[c] else 0
    decreases |s|
  {
    if s != [] {
      assert s == [s[0]] + s[1..];
      KeepIdCharsCounts(s[1..], c);
    }
  }

  /** A text of id characters only is kept whole. */
  lemma {:induction false} KeepIdCharsOfId(s: string)
    requires forall i :: 0 <= i < |s| ==> IsIdChar(s[i])
    ensures KeepIdChars(s) == s
    decreases |s|
  {
    if s != [] {
      KeepIdCharsOfId(s[1..]);
    }
  }

  /** The number of id characters of `s`, counted from its end. */
  function IdCount(s: string): nat
    decreases |s|
  {
    if s == [] then 0 else IdCount(s[..|s| - 1]) + (if IsIdChar(s[|s| - 1]) then 1 else 0)
  }

  /** `normalizeMermaidId`: `mermaid-` and the id characters of the seed. */
  function NormalizeMermaidId(seed: string): (r: string)
    ensures StartsWith(r, IdPrefix)
    ensures r[|IdPrefix|..] == KeepIdChars(seed)
    ensures forall i :: 0 <= i < |r| ==> IsIdChar(r[i])
  {
    PrefixIsId();
    IdPrefix + KeepIdChars(seed)
  }

  lemma PrefixIsId()
    ensures forall i :: 0 <= i < |IdPrefix| ==> IsIdChar(IdPrefix[i])
  {
  }

  /** The id is eight characters longer than the number of id characters of the
      seed. */
  lemma {:induction false} IdLength(seed: string)
    ensures |NormalizeMermaidId(seed)| == |IdPrefix| + IdCount(seed)
    decreases |seed|
  {
    if seed != [] {
      var init, last := seed[..|seed| - 1], seed[|seed| - 1];
      assert seed == init + [last];
      KeepIdCharsAppend(init, [last]);
      IdLength(init);
    }
  }

  /** An id is its own normalisation's tail: normalising again only adds the
      prefix once more and removes nothing. */
  lemma IdIsStable(seed: string)
    ensures KeepIdChars(NormalizeMermaidId(seed)) == NormalizeMermaidId(seed)
  {
    KeepIdCharsOfId(NormalizeMermaidId(seed));
  }

  // ---------------------------------------------------------------------------
  // Loading the library

  /** `loadMermaid`'s module-level state: whether the library was imported and
      whether it was initialised, with the number of times each happened. */
  class MermaidLoader {
    var loaded: bool
    var initialized: bool
    var imports: nat
    var initializations: nat

    predicate Valid()
      reads this
    {
      && imports == (if loaded then 1 else 0)
      && initializations == (if initialized then 1 else 0)
      && (initialized ==> loaded)
    }

    constructor ()
      ensures Valid() && !loaded && !initialized
    {
      loaded, initialized := false, false;
      imports, initializations := 0, 0;
    }

    /** `loadMermaid`: imports the library if it is not loaded yet (the import
        may fail, `importOk` false, which ends the call), then initialises it
        if that was not done yet. Each happens at most once over any number of
        calls. */
    method Load(importOk: bool) returns (ok: bool)
      requires Valid()
      modifies this
      ensures Valid()
      ensures imports <= 1 && initializations <= 1
      ensures ok <==> old(loaded) || importOk
      ensures ok ==> loaded && initialized
      ensures !ok ==> loaded == old(loaded) && initialized == old(initialized)
      ensures old(loaded) ==> imports == old(imports)
      ensures old(initialized) ==> initializations == old(initializations)
    {
      if !loaded {
        if !importOk {
          return false;
        }
        loaded := true;
        imports := imports + 1;
      }
      if !initialized {
        initialized := true;
        initializations := initializations + 1;
      }
      return true;
    }
  }

  // ---------------------------------------------------------------------------
  // What the card shows

  datatype View =
    | Diagram(svg: string)
    | ErrorWithCode(message: string, code: string)   // the message and a plain code block
    | Loading

  /** No (or an empty) SVG shows the error with the code when there is a
      non-empty error, and the loading note otherwise; an SVG shows the
      diagram. */
  function ViewOf(svg: Option<string>, error: Option<string>, code: string): (r: View)
    ensures r.Diagram? <==> svg.Some? && svg.value != ""
    ensures r.Diagram? ==> r.svg == svg.value
    ensures r.ErrorWithCode? <==> (svg.None? || svg.value == "") && error.Some? && error.value != ""
    ensures r.ErrorWithCode? ==> r.message == error.value && r.code == code
  {
    if svg.Some? && svg.value != "" then Diagram(svg.value)
    else if error.Some? && error.value != "" then ErrorWithCode(error.value, code)
    else Loading
  }

  /** The card's rendering state. */
  datatype RenderState = RenderState(svg: Option<string>, error: Option<string>)

  /** The render effect settling: nothing changes once the effect was
      cancelled; a rendered SVG is stored and the error cleared; a failure
      (of the import or of the renderer, `None`) clears the SVG and stores the
      fixed message. */
  function Settle(state: RenderState, rendered: Option<string>, cancelled: bool): (r: RenderState)
    ensures cancelled ==> r == state
    ensures !cancelled && rendered.Some? ==> r.svg == rendered && r.error.None?
    ensures !cancelled && rendered.None? ==> r.svg.None? && r.error == Some(RenderFailed)
  {
    if cancelled then state
    else if rendered.Some? then RenderState(rendered, None)
    else RenderState(None, Some(RenderFailed))
  }

  /** Once a render settles uncancelled, the card shows the diagram when an SVG
      was produced, the error with the source when rendering failed, and keeps
      showing the loading note if the SVG was empty. */
  lemma SettledView(state: RenderState, rendered: Option<string>, code: string)
    ensures var s := Settle(state, rendered, false);
            var v := ViewOf(s.svg, s.error, code);
            && (rendered.Some? && rendered.value != "" ==> v == Diagram(rendered.value))
            && (rendered.None? ==> v == ErrorWithCode(RenderFailed, code))
            && (rendered == Some("") ==> v == Loading)
  {
    assert RenderFailed != "" by { assert |RenderFailed| > 0; }
  }
}
