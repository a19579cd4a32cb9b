/** The fixed scale of cards and the display tables for the three groups. */
module Constants {
  import opened Types

  /** The cards in the order the voting grid shows them. */
  const FibonacciSequence: seq<FibonacciValue> := [Coffee, One, Two, Three, Five, Eight, Thirteen, TwentyOne]

  const GroupNames: map<Group, string> := map[G := "General", F := "Frontend", B := "Backend"]

  datatype ColorScheme = ColorScheme(bg: string, hover: string, border: string, text: string, light: string)

  const GroupColors: map<Group, ColorScheme> := map[
    G := ColorScheme("bg-blue-500", "hover:bg-blue-600", "border-blue-500", "text-blue-600", "bg-blue-50"),
    F := ColorScheme("bg-emerald-500", "hover:bg-emerald-600", "border-emerald-500", "text-emerald-600", "bg-emerald-50"),
    B := ColorScheme("bg-purple-500", "hover:bg-purple-600", "border-purple-500", "text-purple-600", "bg-purple-50")]

  /** The scale lists each of the eight cards exactly once. */
  lemma ScaleListsEveryCardOnce(v: FibonacciValue)
    ensures |FibonacciSequence| == 8
    ensures multiset(FibonacciSequence)[v] == 1
  {
  }

  /** The pass card comes first and the numeric cards after it are strictly increasing. */
  lemma ScaleIsOrdered()
    ensures FibonacciSequence[0] == Coffee
    ensures forall i :: 1 <= i < |FibonacciSequence| ==> NumericValue(FibonacciSequence[i]).Some?
    ensures forall i, j :: 1 <= i < j < |FibonacciSequence| ==>
      NumericValue(FibonacciSequence[i]).value < NumericValue(FibonacciSequence[j]).value
  {
  }

  /** Each group has a display name and a colour scheme, and there are no others. */
  lemma GroupTablesCoverEveryGroup(g: Group)
    ensures GroupNames.Keys == {G, F, B} && GroupColors.Keys == {G, F, B}
    ensures g in GroupNames && g in GroupColors
    ensures GroupNames[G] == "General" && GroupNames[F] == "Frontend" && GroupNames[B] == "Backend"
  {
  }
}
