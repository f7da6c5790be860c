/** The names that the device-tree code looks for (src/base/device_tree.c). */
module DtSpelling {
  import opened Common
  import opened FdtFormat
  import opened DtReferences
  import opened DtCopy
  import opened DtOverlay

  /** b holds the characters of s. */
  predicate Spells(b: Bytes, s: string) {
    |b| == |s| && forall i :: 0 <= i < |s| ==> b[i] as int == s[i] as int
  }

  lemma PhandleNames()
    ensures Spells(PHANDLE, "phandle") && Spells(LINUX_PHANDLE, "linux,phandle") && Spells(NAME, "name")
  {
  }

  lemma SpellsOnce(b: Bytes, c: Bytes, s: string)
    requires Spells(c, s)
    ensures Spells(b, s) <==> b == c
  {
  }

  /** What is never copied onto a node that exists. */
  lemma IllegalNames(b: Bytes)
    ensures IllegalName(b) <==> Spells(b, "phandle") || Spells(b, "linux,phandle") || Spells(b, "name")
    ensures PhandleName(b) <==> Spells(b, "phandle") || Spells(b, "linux,phandle")
  {
    hide Spells;
    PhandleNames();
    SpellsOnce(b, PHANDLE, "phandle");
    SpellsOnce(b, LINUX_PHANDLE, "linux,phandle");
    SpellsOnce(b, NAME, "name");
  }

  lemma OverlayNames()
    ensures Spells(OVERLAY, "__overlay__") && Spells(SYMBOLS, "__symbols__")
  {
  }

  lemma FixupNames()
    ensures Spells(FIXUPS, "__fixups__") && Spells(LOCAL_FIXUPS, "__local_fixups__")
  {
  }

  lemma TargetNames()
    ensures Spells(TARGET, "target") && Spells(TARGET_PATH, "target-path")
  {
  }
}
