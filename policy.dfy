/**
  * The per-texture decision of the DDS exporter: which DDS format a texture
  * gets, whether its colours are premultiplied by alpha, which compressor
  * encodes it, whether its alpha is made binary and whether mipmaps are
  * generated. Pattern-list lookups are taken as their boolean results.
  */
module FormatPolicy {
  import opened Common
  import opened Formats

  /** The compressor choices (COMPRESSOR_*). */
  datatype Tool = Autoselect | Nvidia | NvidiaTT | Ati | Internal

  /** Whether the file matches each per-file pattern list. */
  datatype FileMatches = FileMatches(
    isNormal: bool, isHeight: bool,
    forceDXT1: bool, forceDXT2: bool, forceDXT3: bool, forceDXT4: bool, forceDXT5: bool,
    forceBGRA: bool, forceNv: bool, forceATI: bool, noMip: bool)

  /** The global options; forceFormat 0 means no forced format. */
  datatype Options = Options(forceFormat: DWORD, compressor: Tool, forceNoMipmaps: bool)

  datatype Decision = Decision(
    formatCC: DWORD, premodulateColor: bool, tool: Tool, binarizeAlpha: bool, generateMips: bool)

  /** The format chosen from the image alone. */
  function DefaultFormat(isHeight: bool, hasAlpha: bool, hasGradientAlpha: bool): (f: DWORD)
    ensures isHeight ==> f == FORMAT_DXT1
    ensures !hasAlpha ==> f == FORMAT_DXT1
    ensures hasAlpha && !hasGradientAlpha ==> f == FORMAT_DXT1
    ensures !isHeight && hasAlpha && hasGradientAlpha ==> f == FORMAT_DXT5
  {
    if isHeight then FORMAT_DXT1
    else if hasAlpha then (if hasGradientAlpha then FORMAT_DXT5 else FORMAT_DXT1)
    else FORMAT_DXT1
  }

  /** The per-file format lists, in the order they are consulted. */
  function OverrideList(m: FileMatches): seq<(bool, DWORD)> {
    [(m.forceDXT1, FORMAT_DXT1), (m.forceDXT2, FORMAT_DXT2), (m.forceDXT3, FORMAT_DXT3),
     (m.forceDXT4, FORMAT_DXT4), (m.forceDXT5, FORMAT_DXT5), (m.forceBGRA, FORMAT_BGRA)]
  }

  /** The format of the first matching entry, or the fallback when none matches. */
  function FirstMatch(rules: seq<(bool, DWORD)>, fallback: DWORD): DWORD {
    if rules == [] then fallback
    else if rules[0].0 then rules[0].1
    else FirstMatch(rules[1..], fallback)
  }

  /** First match wins: the entry at the least matching index decides, and no match keeps the fallback. */
  lemma {:induction false} FirstMatchIsLeast(rules: seq<(bool, DWORD)>, fallback: DWORD, i: nat)
    ensures i < |rules| && rules[i].0 && (forall j :: 0 <= j < i ==> !rules[j].0) ==>
      FirstMatch(rules, fallback) == rules[i].1
    ensures (forall j :: 0 <= j < |rules| ==> !rules[j].0) ==> FirstMatch(rules, fallback) == fallback
  {
    if rules != [] {
      FirstMatchIsLeast(rules[1..], fallback, if i == 0 then 0 else i - 1);
      if i > 0 && i < |rules| && rules[i].0 && (forall j :: 0 <= j < i ==> !rules[j].0) {
        assert !rules[0].0;
        assert rules[1..][i - 1] == rules[i];
        assert forall j :: 0 <= j < i - 1 ==> !rules[1..][j].0 by {
          forall j | 0 <= j < i - 1 ensures !rules[1..][j].0 {
            assert rules[1..][j] == rules[j + 1];
          }
        }
      }
      if forall j :: 0 <= j < |rules| ==> !rules[j].0 {
        assert !rules[0].0;
        assert forall j :: 0 <= j < |rules| - 1 ==> !rules[1..][j].0 by {
          forall j | 0 <= j < |rules| - 1 ensures !rules[1..][j].0 {
            assert rules[1..][j] == rules[j + 1];
          }
        }
      }
    }
  }

  /** The format before the alpha check: a global force beats the per-file lists, which beat the default. */
  function ChosenFormat(opt: Options, m: FileMatches, hasAlpha: bool, hasGradientAlpha: bool): (f: DWORD)
    ensures opt.forceFormat != 0 ==> f == opt.forceFormat
    ensures opt.forceFormat == 0 && f != DefaultFormat(m.isHeight, hasAlpha, hasGradientAlpha) ==>
      m.forceDXT1 || m.forceDXT2 || m.forceDXT3 || m.forceDXT4 || m.forceDXT5 || m.forceBGRA
  {
    var f := DefaultFormat(m.isHeight, hasAlpha, hasGradientAlpha);
    if opt.forceFormat != 0 then opt.forceFormat
    else if m.forceDXT1 then FORMAT_DXT1
    else if m.forceDXT2 then FORMAT_DXT2
    else if m.forceDXT3 then FORMAT_DXT3
    else if m.forceDXT4 then FORMAT_DXT4
    else if m.forceDXT5 then FORMAT_DXT5
    else if m.forceBGRA then FORMAT_BGRA
    else f
  }

  /** Without alpha, the alpha formats DXT3 and DXT5 fall back to DXT1; everything else is kept. */
  function DowngradeOpaque(f: DWORD, hasAlpha: bool): (g: DWORD)
    ensures !hasAlpha ==> g != FORMAT_DXT3 && g != FORMAT_DXT5
    ensures hasAlpha ==> g == f
    ensures g == f || (g == FORMAT_DXT1 && (f == FORMAT_DXT3 || f == FORMAT_DXT5))
  {
    if !hasAlpha && (f == FORMAT_DXT3 || f == FORMAT_DXT5) then FORMAT_DXT1 else f
  }

  /** Downgrading twice is downgrading once. */
  lemma DowngradeIdempotent(f: DWORD, hasAlpha: bool)
    ensures DowngradeOpaque(DowngradeOpaque(f, hasAlpha), hasAlpha) == DowngradeOpaque(f, hasAlpha)
  {
  }

  /** The compressor for format f. */
  function SelectTool(compressor: Tool, m: FileMatches, f: DWORD): (t: Tool)
    ensures t != Autoselect
    ensures f == FORMAT_BGRA ==> t == Internal
    ensures f != FORMAT_BGRA && compressor != Autoselect ==> t == compressor
    ensures f != FORMAT_BGRA && compressor == Autoselect ==>
      (t == Nvidia || t == Ati) && (t == Nvidia <==> m.forceNv || (m.isNormal && !m.forceATI))
  {
    var t :=
      if compressor != Autoselect then compressor
      else if m.forceNv then Nvidia
      else if m.forceATI then Ati
      else if m.isNormal then Nvidia
      else Ati;
    if f == FORMAT_BGRA then Internal else t
  }

  /** The whole per-texture decision. */
  function Resolve(opt: Options, m: FileMatches, hasAlpha: bool, hasGradientAlpha: bool): (d: Decision)
    ensures d.formatCC == DowngradeOpaque(ChosenFormat(opt, m, hasAlpha, hasGradientAlpha), hasAlpha)
    ensures !hasAlpha ==> d.formatCC != FORMAT_DXT3 && d.formatCC != FORMAT_DXT5
    ensures d.premodulateColor <==> (d.formatCC == FORMAT_DXT2 || d.formatCC == FORMAT_DXT4)
    ensures d.tool == SelectTool(opt.compressor, m, d.formatCC)
    ensures d.binarizeAlpha <==> (d.formatCC == FORMAT_DXT1 && hasAlpha)
    ensures d.generateMips <==> !opt.forceNoMipmaps && !m.noMip
  {
    var chosen := ChosenFormat(opt, m, hasAlpha, hasGradientAlpha);
    var premodulate := chosen == FORMAT_DXT4 || chosen == FORMAT_DXT2;
    var formatCC := DowngradeOpaque(chosen, hasAlpha);
    var tool := SelectTool(opt.compressor, m, formatCC);
    Decision(formatCC, premodulate, tool, formatCC == FORMAT_DXT1 && hasAlpha,
      !opt.forceNoMipmaps && !m.noMip)
  }

  /** FirstMatch on a list with head x: x decides if it matches, else the rest does. */
  lemma FirstMatchCons(x: (bool, DWORD), rest: seq<(bool, DWORD)>, fallback: DWORD)
    ensures FirstMatch([x] + rest, fallback) == if x.0 then x.1 else FirstMatch(rest, fallback)
  {
    assert ([x] + rest)[1..] == rest;
  }

  /** The if-chain over the per-file lists is the first-match rule over OverrideList. */
  lemma ChosenFormatIsFirstMatch(opt: Options, m: FileMatches, hasAlpha: bool, hasGradientAlpha: bool)
    requires opt.forceFormat == 0
    ensures ChosenFormat(opt, m, hasAlpha, hasGradientAlpha) ==
      FirstMatch(OverrideList(m), DefaultFormat(m.isHeight, hasAlpha, hasGradientAlpha))
  {
    var fallback := DefaultFormat(m.isHeight, hasAlpha, hasGradientAlpha);
    var r5: seq<(bool, DWORD)> := [(m.forceBGRA, FORMAT_BGRA)];
    var r4 := [(m.forceDXT5, FORMAT_DXT5)] + r5;
    var r3 := [(m.forceDXT4, FORMAT_DXT4)] + r4;
    var r2 := [(m.forceDXT3, FORMAT_DXT3)] + r3;
    var r1 := [(m.forceDXT2, FORMAT_DXT2)] + r2;
    var r0 := [(m.forceDXT1, FORMAT_DXT1)] + r1;
    assert OverrideList(m) == r0;
    FirstMatchCons((m.forceBGRA, FORMAT_BGRA), [], fallback);
    assert [(m.forceBGRA, FORMAT_BGRA)] + [] == r5;
    FirstMatchCons((m.forceDXT5, FORMAT_DXT5), r5, fallback);
    FirstMatchCons((m.forceDXT4, FORMAT_DXT4), r4, fallback);
    FirstMatchCons((m.forceDXT3, FORMAT_DXT3), r3, fallback);
    FirstMatchCons((m.forceDXT2, FORMAT_DXT2), r2, fallback);
    FirstMatchCons((m.forceDXT1, FORMAT_DXT1), r1, fallback);
  }

  /**
    * Format priority: a global force wins over every list; otherwise the lists
    * apply in the order DXT1, DXT2, DXT3, DXT4, DXT5, BGRA, the first match
    * wins, and with no match the default stands.
    */
  lemma FormatPriority(opt: Options, m: FileMatches, hasAlpha: bool, hasGradientAlpha: bool, i: nat)
    requires opt.forceFormat == 0
    ensures var rules := OverrideList(m);
      i < |rules| && rules[i].0 && (forall j :: 0 <= j < i ==> !rules[j].0) ==>
        ChosenFormat(opt, m, hasAlpha, hasGradientAlpha) == rules[i].1
    ensures !(m.forceDXT1 || m.forceDXT2 || m.forceDXT3 || m.forceDXT4 || m.forceDXT5 || m.forceBGRA) ==>
      ChosenFormat(opt, m, hasAlpha, hasGradientAlpha) == DefaultFormat(m.isHeight, hasAlpha, hasGradientAlpha)
  {
    var rules := OverrideList(m);
    var fallback := DefaultFormat(m.isHeight, hasAlpha, hasGradientAlpha);
    ChosenFormatIsFirstMatch(opt, m, hasAlpha, hasGradientAlpha);
    FirstMatchIsLeast(rules, fallback, i);
    if !(m.forceDXT1 || m.forceDXT2 || m.forceDXT3 || m.forceDXT4 || m.forceDXT5 || m.forceBGRA) {
      assert forall j :: 0 <= j < |rules| ==> !rules[j].0;
    }
  }
}
