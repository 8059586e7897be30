/** The thirteen text replacements `ChangeProjectFile` (ipm.py:339-418)
    makes in a new project's .ewp file, as a list of (old, new) pairs
    applied one after the other with `str.replace`. */
module ProjectFile {
  import opened Outcomes
  import opened Text
  import opened Device

  /** One `ReplaceTextInFile` call: every occurrence of `pat` becomes `rep`. */
  datatype Edit = Edit(pat: string, rep: string)

  /** The project file of a project created under `name`
      (ipm.py:344). */
  function ProjectFilePath(name: string): string {
    name + "/EWARM/" + name + ".ewp"
  }

  /** IAR's macro for the project directory. */
  const ProjDir: string := "$PROJ_DIR$"

  /** The folder holding the CMSIS device folders, as the project file
      names it (ipm.py:347-348). */
  const DeviceRoot: string := ProjDir + "\\..\\source\\CMSIS\\Device\\ST\\"

  /** The CMSIS device folder of a family (ipm.py:348). */
  function CmsisPath(family: string): string {
    DeviceRoot + family
  }

  /** The CMSIS device folder the template points at (ipm.py:347). */
  const TemplateCmsis: string := CmsisPath("STM32F4xx")

  /** The pattern of the second replacement (ipm.py:356), which starts the
      patterns of the fifth to seventh. */
  const TemplateInclude: string := TemplateCmsis + "\\Include"

  /** The ten replacements made before the core is looked up
      (ipm.py:351-397), for the lower-cased device. */
  function DeviceEdits(device: string): (edits: seq<Edit>)
    ensures |edits| == 10
  {
    var family := Family(device);
    var path := CmsisPath(family);
    [ Edit("STM32F407xx", Macro(device)),
      Edit(TemplateInclude, path + "\\Include"),
      Edit(TemplateCmsis + "\\Source\\iar\\linker\\stm32f407xx_flash.icf",
           path + "\\Source\\iar\\linker\\" + device + "_flash.icf"),
      Edit("<name>STM32F4xx</name>", "<name>" + family + "</name>"),
      Edit(TemplateInclude + "\\stm32f407xx.h", path + "\\Include\\" + device + ".h"),
      Edit(TemplateInclude + "\\stm32f4xx.h", path + "\\Include\\" + Lower(family) + ".h"),
      Edit(TemplateInclude + "\\system_stm32f4xx.h",
           path + "\\Include\\system_" + Lower(family) + ".h"),
      Edit(TemplateCmsis + "\\Source\\iar\\linker\\stm32f412rx_flash.icf",
           path + "\\Source\\iar\\linker\\" + device + "_flash.icf"),
      Edit(TemplateCmsis + "\\Source\\iar\\startup_stm32f407xx.s",
           path + "\\Source\\iar\\startup_" + device + ".s"),
      Edit(TemplateCmsis + "\\Source\\system_stm32f4xx.c", path + "\\Source\\system_" + family + ".c") ]
  }

  /** The core header replacement (ipm.py:412-414). */
  function CoreEdit(core: string): Edit {
    Edit("$PROJ_DIR$\\..\\source\\CMSIS\\Include\\core_cm4.h",
         "$PROJ_DIR$\\..\\source\\CMSIS\\Include\\" + core)
  }

  /** The output file names (ipm.py:417-418); the template's misspelt
      "tempalte.out" is what is searched for. */
  function OutputEdits(name: string): seq<Edit> {
    [Edit("template.hex", name + ".hex"), Edit("tempalte.out", name + ".out")]
  }

  /** All thirteen replacements in source order, or the error of the core
      lookup. `device` is the device as given; it is lower-cased first
      (ipm.py:340). */
  function ProjectEdits(name: string, device: string): (r: Result<seq<Edit>>)
    ensures r.Err? <==> CoreHeader(Lower(device)).Err?
    ensures r.Ok? ==> |r.value| == 13 && r.value[..10] == DeviceEdits(Lower(device))
    ensures r.Ok? ==> r.value[10] == CoreEdit(CoreTable[Lower(device)[6]])
    ensures r.Ok? ==> r.value[11..] == OutputEdits(name)
  {
    var d := Lower(device);
    match CoreHeader(d)
    case Err(e) => Err(e)
    case Ok(core) => Ok(DeviceEdits(d) + [CoreEdit(core)] + OutputEdits(name))
  }

  /** The text after applying `edits` in order, the first one first. */
  function ApplyEdits(text: string, edits: seq<Edit>): string
    decreases |edits|
  {
    if edits == [] then text
    else
      var last := edits[|edits| - 1];
      ReplaceAll(ApplyEdits(text, edits[..|edits| - 1]), last.pat, last.rep)
  }

  /** Applying a list of edits in two parts is applying the whole list. */
  lemma {:induction false} ApplyEditsAppend(text: string, first: seq<Edit>, second: seq<Edit>)
    ensures ApplyEdits(text, first + second) == ApplyEdits(ApplyEdits(text, first), second)
    decreases |second|
  {
    if second == [] {
      assert first + second == first;
    } else {
      var n := |second|;
      ApplyEditsAppend(text, first, second[..n - 1]);
      assert (first + second)[..|first + second| - 1] == first + second[..n - 1];
      assert (first + second)[|first + second| - 1] == second[n - 1];
    }
  }

  /** The text after the first `n` edits is the text after `n - 1` edits
      with the `n`-th applied. */
  lemma ApplyEditsStep(text: string, edits: seq<Edit>, n: nat)
    requires 0 < n <= |edits|
    ensures ApplyEdits(text, edits[..n]) ==
      ReplaceAll(ApplyEdits(text, edits[..n - 1]), edits[n - 1].pat, edits[n - 1].rep)
  {
    assert edits[..n][..n - 1] == edits[..n - 1];
  }

  /** The characters of the CMSIS device root the proofs below rely on. */
  lemma DeviceRootShape()
    ensures |DeviceRoot| == 37 && DeviceRoot[0] == '$' && DeviceRoot[1] == 'P'
    ensures DeviceRoot[36] == '\\' && '<' !in DeviceRoot
    ensures PairFree(DeviceRoot[1..], '$', 'P')
  {
    var dirs := "\\..\\source\\CMSIS\\Device\\ST\\";
    assert '<' !in dirs && '<' !in ProjDir;
    assert DeviceRoot[36] == dirs[26];
    DeviceRootPairFree(dirs);
  }

  lemma DeviceRootPairFree(dirs: string)
    requires dirs == "\\..\\source\\CMSIS\\Device\\ST\\"
    ensures PairFree(DeviceRoot[1..], '$', 'P')
  {
    ProjDirPairFree();
    assert '$' !in dirs;
    PairFreeConcat(ProjDir[1..], dirs, '$', 'P');
    assert DeviceRoot[1..] == ProjDir[1..] + dirs;
  }

  lemma ProjDirPairFree()
    ensures PairFree(ProjDir[1..], '$', 'P') && ProjDir[|ProjDir| - 1] == '$'
  {
    assert ProjDir[1..] == "PROJ_DIR" + "$";
    PairFreeConcat("PROJ_DIR", "$", '$', 'P');
  }

  /** A CMSIS path holds no '$' followed by 'P' past its first character. */
  lemma CmsisPairFree(family: string, tail: string)
    requires PairFree(family, '$', 'P') && PairFree(tail, '$', 'P')
    requires tail != [] && tail[0] != 'P'
    ensures PairFree((CmsisPath(family) + tail)[1..], '$', 'P')
  {
    DeviceRootShape();
    assert (CmsisPath(family) + tail)[1..] == DeviceRoot[1..] + family + tail;
    PairFreeConcat(DeviceRoot[1..], family, '$', 'P');
    PairFreeConcat(DeviceRoot[1..] + family, tail, '$', 'P');
  }

  /** The template's include folder cannot overlap a CMSIS path of another
      family: the two differ at the family's seventh character. */
  lemma CmsisIsolated(family: string, tail: string)
    requires |family| >= 7 && family[6] != '4' && PairFree(family, '$', 'P')
    requires PairFree(tail, '$', 'P') && tail != [] && tail[0] != 'P' && tail[|tail| - 1] != '$'
    ensures Isolated(CmsisPath(family) + tail, TemplateInclude)
  {
    var rep := CmsisPath(family) + tail;
    var q := TemplateInclude;
    DeviceRootShape();
    assert q == CmsisPath("STM32F4xx") + "\\Include";
    assert rep[43] == family[6] && q[43] == "STM32F4xx"[6];
    if Compatible(rep, q) {
      CompatibleAt(rep, q, 43);
    }
    CmsisPairFree(family, tail);
    CmsisPairFree("STM32F4xx", "\\Include");
    IsolatedByPair(rep, q);
  }

  /** The template's include folder starts with "$P" and holds no '<'. */
  lemma TemplateIncludeShape()
    ensures TemplateInclude[0] == '$' && TemplateInclude[1] == 'P' && '<' !in TemplateInclude
  {
    DeviceRootShape();
    assert TemplateInclude == DeviceRoot + "STM32F4xx" + "\\Include";
    assert '<' !in "STM32F4xx" && '<' !in "\\Include";
  }

  /** Nor can it overlap the `<name>` element of another family. */
  lemma NameIsolated(family: string)
    requires PairFree(family, '$', 'P')
    ensures Isolated("<name>" + family + "</name>", TemplateInclude)
  {
    var rep := "<name>" + family + "</name>";
    var q := TemplateInclude;
    assert rep[1..] == "name>" + family + "</name>";
    PairFreeConcat("name>", family, '$', 'P');
    PairFreeConcat("name>" + family, "</name>", '$', 'P');
    TemplateIncludeShape();
    assert rep[|rep| - 1] == '>';
    forall k | 0 <= k < |q| - 1
      ensures q[1..][k] != '<'
    {
      assert q[1..][k] == q[k + 1];
    }
    if Compatible(rep, q) {
      CompatibleAt(rep, q, 0);
    }
    IsolatedByPair(rep, q);
  }

  /** The device edits search for the template's include folder, then
      for three paths under it. */
  lemma IncludePatterns(device: string)
    ensures var edits := DeviceEdits(device); var q := TemplateInclude;
      && edits[1].pat == q && edits[2].pat != [] && edits[3].pat != []
      && edits[4].pat == q + "\\stm32f407xx.h"
      && edits[5].pat == q + "\\stm32f4xx.h"
      && edits[6].pat == q + "\\system_stm32f4xx.h"
  {
  }

  /** The replacements of the second to fourth device edits. */
  lemma IncludeReplacements(device: string)
    ensures var edits := DeviceEdits(device); var family := Family(device);
      && edits[1].rep == CmsisPath(family) + "\\Include"
      && edits[2].rep == CmsisPath(family) + ("\\Source\\iar\\linker\\" + device + "_flash.icf")
      && edits[3].rep == "<name>" + family + "</name>"
  {
  }

  /** For a family other than STM32F4xx, the replacements of the second to
      fourth device edits cannot overlap the template's include folder. */
  lemma IncludeEditsIsolated(device: string)
    requires Accepted(device) && Family(device) != "STM32F4xx"
    ensures var edits := DeviceEdits(Lower(device)); var q := TemplateInclude;
      Isolated(edits[1].rep, q) && Isolated(edits[2].rep, q) && Isolated(edits[3].rep, q)
  {
    var d := Lower(device);
    FamilyIgnoresCase(device);
    OtherFamily(device);
    assert 'P' !in d;
    IncludeReplacements(d);
    FamilyReplacementsIsolated(Family(d), d);
  }

  /** The three replacements, for a family that differs from STM32F4xx at
      its seventh character and a device without 'P'. */
  lemma FamilyReplacementsIsolated(family: string, d: string)
    requires |family| >= 8 && family[6] != '4' && family[|family| - 1] == 'x'
    requires PairFree(family, '$', 'P') && 'P' !in d
    ensures Isolated(CmsisPath(family) + "\\Include", TemplateInclude)
    ensures Isolated(CmsisPath(family) + ("\\Source\\iar\\linker\\" + d + "_flash.icf"), TemplateInclude)
    ensures Isolated("<name>" + family + "</name>", TemplateInclude)
  {
    CmsisIsolated(family, "\\Include");
    var linker := "\\Source\\iar\\linker\\";
    PairFreeConcat(linker, d, '$', 'P');
    PairFreeConcat(linker + d, "_flash.icf", '$', 'P');
    CmsisIsolated(family, linker + d + "_flash.icf");
    NameIsolated(family);
  }

  /** The second pair (ipm.py:355-358) rewrites the template's CMSIS
      include folder everywhere, and the next two pairs cannot bring it
      back; so for a family other than STM32F4xx the three pairs at
      ipm.py:372-383, whose patterns start with that folder, replace
      nothing. */
  lemma StaleIncludeEdits(device: string, text: string)
    requires Accepted(device) && Family(device) != "STM32F4xx"
    ensures !Occurs(ApplyEdits(text, DeviceEdits(Lower(device))[..4]), TemplateInclude)
    ensures ApplyEdits(text, DeviceEdits(Lower(device))[..7]) ==
      ApplyEdits(text, DeviceEdits(Lower(device))[..4])
  {
    IncludePatterns(Lower(device));
    IncludeEditsIsolated(device);
    StaleEdits(text, DeviceEdits(Lower(device)), TemplateInclude,
      "\\stm32f407xx.h", "\\stm32f4xx.h", "\\system_stm32f4xx.h");
  }

  /** Once the second edit has removed `q` and the next two cannot bring
      it back, edits five to seven, which search for extensions of `q`,
      change nothing. */
  lemma StaleEdits(text: string, edits: seq<Edit>, q: string, t5: string, t6: string, t7: string)
    requires |edits| >= 7 && q != []
    requires edits[1].pat == q && Isolated(edits[1].rep, q)
    requires edits[2].pat != [] && Isolated(edits[2].rep, q)
    requires edits[3].pat != [] && Isolated(edits[3].rep, q)
    requires edits[4].pat == q + t5 && edits[5].pat == q + t6 && edits[6].pat == q + t7
    ensures !Occurs(ApplyEdits(text, edits[..4]), q)
    ensures ApplyEdits(text, edits[..7]) == ApplyEdits(text, edits[..4])
  {
    ApplyEditsStep(text, edits, 2);
    ReplaceRemoves(ApplyEdits(text, edits[..1]), q, edits[1].rep);
    ApplyEditsStep(text, edits, 3);
    ReplaceKeepsAbsent(ApplyEdits(text, edits[..2]), edits[2].pat, edits[2].rep, q);
    ApplyEditsStep(text, edits, 4);
    ReplaceKeepsAbsent(ApplyEdits(text, edits[..3]), edits[3].pat, edits[3].rep, q);
    StaleEdit(text, edits, 5, q, t5);
    StaleEdit(text, edits, 6, q, t6);
    StaleEdit(text, edits, 7, q, t7);
  }

  /** An edit whose pattern extends a text that is absent changes nothing. */
  lemma StaleEdit(text: string, edits: seq<Edit>, n: nat, q: string, tail: string)
    requires 4 < n <= |edits| && q != []
    requires !Occurs(ApplyEdits(text, edits[..n - 1]), q)
    requires ApplyEdits(text, edits[..n - 1]) == ApplyEdits(text, edits[..4])
    requires edits[n - 1].pat == q + tail
    ensures !Occurs(ApplyEdits(text, edits[..n]), q)
    ensures ApplyEdits(text, edits[..n]) == ApplyEdits(text, edits[..4])
  {
    var before := ApplyEdits(text, edits[..n - 1]);
    ApplyEditsStep(text, edits, n);
    if Occurs(before, q + tail) {
      OccursLonger(before, q, tail);
    }
    ReplaceAbsent(before, q + tail, edits[n - 1].rep);
  }

}
