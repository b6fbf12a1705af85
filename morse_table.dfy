/** The character-to-Morse table of the messenger and its flip.

    The table follows International Morse code (ITU-R Recommendation M.1677-1,
    Part I, section 1.1: letters, figures and punctuation) and adds two common
    extras that the Recommendation does not list: '!' and the word separator
    '/' for the space character. */
module MorseTable {

  /** The entries of the table, as written: the code of `c`, or the empty
      string when `c` is not a key. No key maps to the empty string. */
  function Entry(c: char): string
  {
    match c
    case 'A' => ".-"     case 'B' => "-..."   case 'C' => "-.-."   case 'D' => "-.."
    case 'E' => "."      case 'F' => "..-."   case 'G' => "--."    case 'H' => "...."
    case 'I' => ".."     case 'J' => ".---"   case 'K' => "-.-"    case 'L' => ".-.."
    case 'M' => "--"     case 'N' => "-."     case 'O' => "---"    case 'P' => ".--."
    case 'Q' => "--.-"   case 'R' => ".-."    case 'S' => "..."    case 'T' => "-"
    case 'U' => "..-"    case 'V' => "...-"   case 'W' => ".--"    case 'X' => "-..-"
    case 'Y' => "-.--"   case 'Z' => "--.."
    case '0' => "-----"  case '1' => ".----"  case '2' => "..---"  case '3' => "...--"
    case '4' => "....-"  case '5' => "....."  case '6' => "-...."  case '7' => "--..."
    case '8' => "---.."  case '9' => "----."
    case ' ' => "/"
    case ',' => "--..--" case '.' => ".-.-.-" case '?' => "..--.." case '!' => "-.-.--"
    case ':' => "---..." case '\'' => ".----." case '"' => ".-..-." case '-' => "-....-"
    case '/' => "-..-."  case '(' => "-.--."  case ')' => "-.--.-"
    case _ => ""
  }

  /** $morse_map: the table as a dictionary from character to code. All its
      keys lie between ' ' and 'Z'. */
  function MorseMap(): map<char, string>
  {
    map c: char | ' ' <= c <= 'Z' && Entry(c) != "" :: Entry(c)
  }

  /** A non-empty string of dits and dahs. */
  predicate IsSignal(code: string) {
    code != [] && forall i :: 0 <= i < |code| ==> code[i] == '.' || code[i] == '-'
  }

  /** No two keys of `m` share a value. */
  predicate Injective<K, V(==)>(m: map<K, V>) {
    forall k1, k2 :: k1 in m && k2 in m && m[k1] == m[k2] ==> k1 == k2
  }

  /** Every entry lies in the printable ASCII range and is no lower-case
      letter; space alone is coded "/", every other key by dits and dahs. */
  lemma EntryShape(c: char)
    requires Entry(c) != ""
    ensures ' ' <= c <= 'Z' && !('a' <= c <= 'z')
    ensures Entry(c) == "/" <==> c == ' '
    ensures c != ' ' ==> IsSignal(Entry(c))
  {
  }

  /** No two entries share a code. */
  lemma EntryInjective()
    ensures forall c1, c2 :: Entry(c1) != "" && Entry(c2) == Entry(c1) ==> c1 == c2
  {
  }

  /** The 48 keys of the dictionary: what its keys are and how they are coded. */
  lemma MorseMapShape()
    ensures forall c :: c in MorseMap() <==> Entry(c) != ""
    ensures forall c :: c in MorseMap() ==> MorseMap()[c] == Entry(c)
    ensures forall c :: c in MorseMap() ==> !('a' <= c <= 'z')
    ensures forall c :: c in MorseMap() ==> (MorseMap()[c] == "/" <==> c == ' ')
    ensures forall c :: c in MorseMap() && c != ' ' ==> IsSignal(MorseMap()[c])
  {
    forall c | Entry(c) != ""
      ensures c in MorseMap() && !('a' <= c <= 'z')
      ensures (Entry(c) == "/" <==> c == ' ') && (c != ' ' ==> IsSignal(Entry(c)))
    {
      EntryShape(c);
    }
  }

  /** The table can be flipped without loss. */
  lemma MorseMapInjective()
    ensures Injective(MorseMap())
  {
    EntryInjective();
  }

  /** array_flip($m) for a dictionary with no repeated value: each value
      becomes a key mapped back to the key it came from. */
  function Flip<K, V(==)>(m: map<K, V>): (r: map<V, K>)
    requires Injective(m)
    ensures forall k :: k in m ==> m[k] in r && r[m[k]] == k
    ensures forall v :: v in r ==> r[v] in m && m[r[v]] == v
  {
    map k | k in m :: m[k] := k
  }

  /** $rev_map: the flipped table, from code to character. */
  function RevMap(): map<string, char>
  {
    MorseMapInjective();
    Flip(MorseMap())
  }
}
