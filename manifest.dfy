/**
  The jar manifest, as the attribute maps it parses into: the main section
  and the named per-entry sections.
 */
module Manifests {

  import opened Wrappers
  import opened JavaStrings

  type Attributes = map<JString, JString>

  datatype Manifest = Manifest(main: Attributes, sections: map<JString, Attributes>)

  const ORIGIN_MAIN_CLASS := Ascii("Origin-Main-Class")
  const MAIN_CLASS := Ascii("Main-Class")
  const SPRING_BOOT_CLASSES := Ascii("Spring-Boot-Classes")

  /**
    Restores the application entry point: when the main section has
    Origin-Main-Class, Main-Class takes its value and Origin-Main-Class is
    removed; every other attribute and every section stays as it was.
   */
  function RestoreMainClass(m: Manifest): (r: Manifest)
    ensures r.sections == m.sections
    ensures ORIGIN_MAIN_CLASS in m.main ==>
      && MAIN_CLASS in r.main && r.main[MAIN_CLASS] == m.main[ORIGIN_MAIN_CLASS]
      && ORIGIN_MAIN_CLASS !in r.main
      && r.main.Keys == m.main.Keys - {ORIGIN_MAIN_CLASS} + {MAIN_CLASS}
    ensures ORIGIN_MAIN_CLASS !in m.main ==> r == m
    ensures forall k :: k in m.main && k != MAIN_CLASS && k != ORIGIN_MAIN_CLASS ==> k in r.main && r.main[k] == m.main[k]
  {
    if ORIGIN_MAIN_CLASS in m.main then
      var mainClass := m.main[ORIGIN_MAIN_CLASS];
      m.(main := m.main[MAIN_CLASS := mainClass] - {ORIGIN_MAIN_CLASS})
    else
      m
  }

  /**
    The classes root: the Spring-Boot-Classes value of the manifest seen, or
    the empty path when there is no manifest or no such attribute.
   */
  function ClassesRoot(m: Option<Manifest>): JString
  {
    match m
    case Some(manifest) => if SPRING_BOOT_CLASSES in manifest.main then manifest.main[SPRING_BOOT_CLASSES] else []
    case None => []
  }

  /** Restoring the main class never changes the classes root. */
  lemma RestoreKeepsClassesRoot(m: Manifest)
    ensures ClassesRoot(Some(RestoreMainClass(m))) == ClassesRoot(Some(m))
  {
  }
}
