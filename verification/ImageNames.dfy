/** The file names of the camera example's pictures (dsc_file.c): a counter that restarts
    after the alphabetically last picture on the card, and names that must be new. */
module ImageNames {
  const PREFIX_IMAGE: string := "DSC"
  const SUFFIX: string := ".JPG"
  const FOUR_DIGITS := 10000

  // ------------------------------------------------------- printf %04d and atoi

  function DigitChar(d: int): (c: char)
    requires 0 <= d < 10
    ensures IsDigit(c) && DigitValue(c) == d
  {
    '0' + d as char
  }

  predicate IsDigit(c: char) {
    '0' <= c <= '9'
  }

  function DigitValue(c: char): (d: int)
    requires IsDigit(c)
  {
    c as int - '0' as int
  }

  function Less1(w: nat): (r: nat) {
    if w == 0 then 0 else w - 1
  }

  /** n in decimal, with zeros in front up to w digits. */
  function Digits(n: nat, w: nat): (s: string)
    ensures |s| > 0 && forall i :: 0 <= i < |s| ==> IsDigit(s[i])
    decreases n, w
  {
    if n < 10 && w <= 1 then [DigitChar(n)] else Digits(n / 10, Less1(w)) + [DigitChar(n % 10)]
  }

  /** %04d */
  function Printed(n: int): (s: string) {
    if n < 0 then "-" + Digits(-n, 3) else Digits(n, 4)
  }

  function Name(n: int): (s: string) {
    PREFIX_IMAGE + (Printed(n) + SUFFIX)
  }

  function Number(s: string, acc: int): (n: int) {
    if s == [] || !IsDigit(s[0]) then acc else Number(s[1..], 10 * acc + DigitValue(s[0]))
  }

  predicate IsSpace(c: char) {
    c == ' ' || '\t' <= c <= '\r'
  }

  function Atoi(s: string): (n: int) {
    if s == [] then 0
    else if IsSpace(s[0]) then Atoi(s[1..])
    else if s[0] == '-' then -Number(s[1..], 0)
    else if s[0] == '+' then Number(s[1..], 0)
    else Number(s, 0)
  }

  predicate HasPrefix(name: string) {
    PREFIX_IMAGE <= name
  }

  function IndexOf(name: string): (n: int)
    requires HasPrefix(name)
  {
    Atoi(name[|PREFIX_IMAGE|..])
  }

  /** A name this program gives to a picture. */
  predicate IsImage(name: string) {
    HasPrefix(name) && IndexOf(name) >= 0 && name == Name(IndexOf(name))
  }

  lemma {:induction false} NumberOfDigits(n: nat, w: nat, rest: string)
    ensures Number(Digits(n, w) + rest, 0) == Number(rest, n)
    decreases n, w
  {
    if n < 10 && w <= 1 {
      assert ([DigitChar(n)] + rest)[1..] == rest;
    } else {
      var front, last := Digits(n / 10, Less1(w)), DigitChar(n % 10);
      assert (front + [last]) + rest == front + ([last] + rest);
      NumberOfDigits(n / 10, Less1(w), [last] + rest);
      assert ([last] + rest)[1..] == rest;
    }
  }

  /** atoi reads back what %04d wrote, so every name made from a counter is an image. */
  lemma IndexOfName(n: nat)
    ensures IsImage(Name(n)) && IndexOf(Name(n)) == n
  {
    var s := Digits(n, 4) + SUFFIX;
    assert Name(n)[|PREFIX_IMAGE|..] == s;
    assert IsDigit(s[0]);
    NumberOfDigits(n, 4, SUFFIX);
    assert Number(SUFFIX, n) == n;
  }

  /** The first ten thousand names, letter by letter. */
  lemma NameSpelled(n: nat)
    requires n < 10000
    ensures var digit := "0123456789";
            Name(n) == "DSC" + [digit[n / 1000], digit[n / 100 % 10], digit[n / 10 % 10], digit[n % 10]] + ".JPG"
  {
    var tens, hundreds, thousands := n / 10, n / 10 / 10, n / 10 / 10 / 10;
    assert thousands == n / 1000 && hundreds == n / 100;
    LastDigit(n, 4);
    LastDigit(tens, 3);
    LastDigit(hundreds, 2);
    assert Digits(thousands, 1) == [DigitChar(thousands)];
    DigitSpelled(thousands);
    DigitSpelled(hundreds % 10);
    DigitSpelled(tens % 10);
    DigitSpelled(n % 10);
  }

  lemma LastDigit(n: nat, w: nat)
    requires w > 1
    ensures Digits(n, w) == Digits(n / 10, w - 1) + [DigitChar(n % 10)]
  {
  }

  lemma DigitSpelled(d: nat)
    requires d < 10
    ensures DigitChar(d) == "0123456789"[d]
  {
  }

  // --------------------------------------------------------- alphabetical order

  /** strcmp(a, b) < 0 */
  predicate Before(a: string, b: string) {
    b != [] && (a == [] || a[0] < b[0] || (a[0] == b[0] && Before(a[1..], b[1..])))
  }

  lemma {:induction false} BeforeAppend(a: string, b: string, x: string, y: string)
    requires |a| == |b| && Before(a, b)
    ensures Before(a + x, b + y)
  {
    if a[0] == b[0] {
      BeforeAppend(a[1..], b[1..], x, y);
      assert (a + x)[1..] == a[1..] + x && (b + y)[1..] == b[1..] + y;
    }
  }

  lemma {:induction false} BeforeSamePrefix(a: string, x: string, y: string)
    ensures Before(a + x, a + y) <==> Before(x, y)
  {
    if a == [] {
      assert a + x == x && a + y == y;
    } else {
      BeforeSamePrefix(a[1..], x, y);
      assert (a + x)[1..] == a[1..] + x && (a + y)[1..] == a[1..] + y;
    }
  }

  lemma {:induction false} BeforeAsymmetric(a: string, b: string)
    requires Before(a, b)
    ensures !Before(b, a) && a != b
  {
    if a != [] && a[0] == b[0] {
      BeforeAsymmetric(a[1..], b[1..]);
    }
  }

  /** Among numbers printed equally wide, alphabetical order is numerical order. */
  lemma {:induction false} DigitsOrder(a: nat, b: nat, w: nat)
    requires a < b && |Digits(a, w)| == |Digits(b, w)|
    ensures Before(Digits(a, w), Digits(b, w))
    decreases a, w
  {
    if a >= 10 || w > 1 {
      var fa, fb := Digits(a / 10, Less1(w)), Digits(b / 10, Less1(w));
      var la, lb := [DigitChar(a % 10)], [DigitChar(b % 10)];
      if a / 10 == b / 10 {
        BeforeSamePrefix(fa, la, lb);
      } else {
        DigitsOrder(a / 10, b / 10, Less1(w));
        BeforeAppend(fa, fb, la, lb);
      }
    }
  }

  lemma NamesOrder(a: nat, b: nat)
    requires a < b && |Digits(a, 4)| == |Digits(b, 4)|
    ensures Before(Name(a), Name(b))
  {
    DigitsOrder(a, b, 4);
    BeforeAppend(Digits(a, 4), Digits(b, 4), SUFFIX, SUFFIX);
    BeforeSamePrefix(PREFIX_IMAGE, Digits(a, 4) + SUFFIX, Digits(b, 4) + SUFFIX);
  }

  /** How many digits the number takes in a name. */
  function Width(n: nat): (w: nat) {
    |Digits(n, 4)|
  }

  lemma {:induction false} DigitsWidth(a: nat, b: nat, w: nat)
    requires a <= b
    ensures |Digits(a, w)| <= |Digits(b, w)|
    decreases a, w
  {
    if a >= 10 || w > 1 {
      DigitsWidth(a / 10, b / 10, Less1(w));
    }
  }

  lemma FourDigits(n: nat)
    requires n < FOUR_DIGITS
    ensures |Digits(n, 4)| == 4
  {
    assert |Digits(n / 10 / 10 / 10, 1)| == 1;
    assert |Digits(n / 10 / 10, 2)| == 2;
    assert |Digits(n / 10, 3)| == 3;
  }

  predicate AllNines(s: string) {
    forall i :: 0 <= i < |s| ==> s[i] == '9'
  }

  /** Adding one widens the number exactly when it is all nines, and then it starts with 1. */
  lemma {:induction false} CarryWidens(n: nat, w: nat)
    ensures var s, t := Digits(n, w), Digits(n + 1, w);
            if AllNines(s) then |t| == |s| + 1 && t[0] == '1' else |t| == |s|
    decreases n, w
  {
    if n < 10 && w <= 1 {
      assert n == 9 ==> Digits(10, w) == Digits(1, Less1(w)) + ['0'];
      assert Digits(n, w)[0] == DigitChar(n);
    } else {
      var front, last := Digits(n / 10, Less1(w)), DigitChar(n % 10);
      AllNinesSplit(front, last);
      if n % 10 == 9 {
        CarryWidens(n / 10, Less1(w));
        assert (n + 1) / 10 == n / 10 + 1;
      } else {
        assert (n + 1) / 10 == n / 10;
      }
    }
  }

  lemma AllNinesSplit(front: string, last: char)
    ensures AllNines(front + [last]) <==> AllNines(front) && last == '9'
  {
    assert AllNines(front + [last]) ==> (front + [last])[|front|] == '9';
    if AllNines(front + [last]) {
      forall i | 0 <= i < |front| ensures front[i] == '9' {
        assert (front + [last])[i] == '9';
      }
    }
  }

  /** The name after this one sorts before it exactly at 9999, 99999, and so on. */
  lemma NextSortsBefore(n: nat)
    ensures Before(Name(n + 1), Name(n)) <==> AllNines(Digits(n, 4))
  {
    CarryWidens(n, 4);
    if AllNines(Digits(n, 4)) {
      assert Before(Digits(n + 1, 4) + SUFFIX, Digits(n, 4) + SUFFIX);
      BeforeSamePrefix(PREFIX_IMAGE, Digits(n + 1, 4) + SUFFIX, Digits(n, 4) + SUFFIX);
    } else {
      NamesOrder(n, n + 1);
      BeforeAsymmetric(Name(n), Name(n + 1));
    }
  }

  // ------------------------------------------------------------ get_next_index

  /** What scandir with alphasort returns. */
  predicate Sorted(list: seq<string>) {
    forall i, j :: 0 <= i < j < |list| ==> Before(list[i], list[j])
  }

  /** list[k] is the last name with the prefix. */
  predicate LastOf(list: seq<string>, k: nat) {
    k < |list| && HasPrefix(list[k]) && forall j :: k < j < |list| ==> !HasPrefix(list[j])
  }

  predicate NoneOf(list: seq<string>) {
    forall j :: 0 <= j < |list| ==> !HasPrefix(list[j])
  }

  /** Every name with the prefix was given by this program. */
  predicate Tidy(list: seq<string>) {
    forall j :: 0 <= j < |list| && HasPrefix(list[j]) ==> IsImage(list[j])
  }

  /** The countdown over the listing; scandir answers with its length, or -1. */
  method GetNextIndex(answer: int, list: seq<string>) returns (id: int, ghost k: nat)
    requires answer == -1 || answer == |list|
    ensures answer == -1 || NoneOf(list) ==> id == 0
    ensures answer >= 0 && !NoneOf(list) ==> LastOf(list, k) && id == IndexOf(list[k]) + 1
  {
    id, k := 0, 0;
    var n := answer;
    if n <= 0 {
      return;
    }
    while n > 0
      invariant 0 <= n <= |list|
      invariant forall j :: n <= j < |list| ==> !HasPrefix(list[j])
    {
      n := n - 1;
      if HasPrefix(list[n]) {
        id, k := IndexOf(list[n]) + 1, n;
        return;
      }
    }
  }

  /** A listing that ends its pictures with number n and already holds the next name. */
  predicate Taken(list: seq<string>, k: nat, n: nat) {
    Sorted(list) && Tidy(list) && LastOf(list, k) && IndexOf(list[k]) == n && Name(n + 1) in list
  }

  lemma TakenNeedsNines(list: seq<string>, k: nat, n: nat)
    requires Taken(list, k, n)
    ensures AllNines(Digits(n, 4))
  {
    var j :| 0 <= j < |list| && list[j] == Name(n + 1);
    IndexOfName(n + 1);
    ListedBefore(list, k, j);
    NextSortsBefore(n);
  }

  lemma ListedBefore(list: seq<string>, k: nat, j: nat)
    requires Sorted(list) && LastOf(list, k) && j < |list| && HasPrefix(list[j]) && IndexOf(list[j]) != IndexOf(list[k])
    ensures Before(list[j], list[k])
  {
    assert j < k;
  }

  /** The number after the last picture can be taken already exactly when the last one's digits,
      four or more, are all nines; for every other number the next name is new on any card. */
  lemma TakenIffNines(n: nat)
    ensures (exists list, k :: Taken(list, k, n)) <==> AllNines(Digits(n, 4))
  {
    if AllNines(Digits(n, 4)) {
      var list := [Name(n + 1), Name(n)];
      IndexOfName(n);
      IndexOfName(n + 1);
      NextSortsBefore(n);
      assert Taken(list, 1, n);
    } else {
      forall list, k ensures !Taken(list, k, n) {
        if Taken(list, k, n) {
          TakenNeedsNines(list, k, n);
        }
      }
    }
  }

  /** No picture's number is wider than that of the last one listed. */
  predicate Widest(list: seq<string>, k: nat)
    requires Tidy(list) && LastOf(list, k)
  {
    forall j :: 0 <= j < |list| && HasPrefix(list[j]) ==> Width(IndexOf(list[j])) <= Width(IndexOf(list[k]))
  }

  lemma OrderBehindLast(list: seq<string>, k: nat, j: nat)
    requires Sorted(list) && Tidy(list) && LastOf(list, k) && j < |list| && HasPrefix(list[j])
    ensures IndexOf(list[j]) <= IndexOf(list[k]) <==> Width(IndexOf(list[j])) <= Width(IndexOf(list[k]))
  {
    var n: nat, m: nat := IndexOf(list[k]), IndexOf(list[j]);
    if m <= n {
      DigitsWidth(m, n, 4);
    } else {
      DigitsWidth(n, m, 4);
      if Width(m) == Width(n) {
        NamesOrder(n, m);
        BeforeAsymmetric(list[k], list[j]);
        assert false;
      }
    }
  }

  /** The alphabetically last picture has the largest number exactly when none is wider. */
  lemma LastIsLargest(list: seq<string>, k: nat)
    requires Sorted(list) && Tidy(list) && LastOf(list, k)
    ensures (forall j :: 0 <= j < |list| && HasPrefix(list[j]) ==> IndexOf(list[j]) <= IndexOf(list[k])) <==>
            Widest(list, k)
  {
    forall j | 0 <= j < |list| && HasPrefix(list[j])
      ensures IndexOf(list[j]) <= IndexOf(list[k]) <==> Width(IndexOf(list[j])) <= Width(IndexOf(list[k]))
    {
      OrderBehindLast(list, k, j);
    }
  }

  /** A card on which the next number is free and a later one is not. */
  lemma LaterNameTaken()
    ensures var list := [Name(10005), Name(9998)];
            Sorted(list) && Tidy(list) && LastOf(list, 1) && !AllNines(Digits(9998, 4)) && !Widest(list, 1)
  {
    var wide, last := Name(10005), Name(9998);
    IndexOfName(9998);
    IndexOfName(10005);
    FourDigits(9998);
    assert Digits(9998, 4)[3] == '8';
    assert Digits(999, 3)[0] == '9' by {
      assert Digits(99, 2) == Digits(9, 1) + ['9'];
    }
    assert Digits(1000, 3) == "1000" by {
      assert Digits(10, 1) == "10";
      assert Digits(100, 2) == "100";
    }
    assert Before(Digits(10005, 4) + SUFFIX, Digits(9998, 4) + SUFFIX);
    BeforeSamePrefix(PREFIX_IMAGE, Digits(10005, 4) + SUFFIX, Digits(9998, 4) + SUFFIX);
    assert HasPrefix([wide, last][0]);
  }

  // -------------------------------------------------------------------- runs

  /** The counter and the names in the picture directory. */
  datatype Storage = Storage(cnt: int, dir: set<string>)

  /** A rescan that lists the directory, one whose scandir fails, one without a card, a picture
      written (or not, when fopen fails), and a change from outside that adds no picture. */
  datatype Event = Scan(list: seq<string>) | ScanFails | NoCard | Write(created: bool) | Outside(dir: set<string>)

  predicate Lists(list: seq<string>, dir: set<string>) {
    Sorted(list) && (forall j :: 0 <= j < |list| ==> list[j] in dir) && forall name :: name in dir ==> name in list
  }

  predicate Enabled(s: Storage, e: Event) {
    match e
    case Scan(list) => Lists(list, s.dir)
    case Outside(dir) => forall name :: name in dir && HasPrefix(name) ==> name in s.dir
    case _ => true
  }

  /** What the rescan leaves in the counter. */
  ghost predicate Rescanned(list: seq<string>, cnt: int) {
    if NoneOf(list) then cnt == 0 else exists k: nat :: LastOf(list, k) && cnt == IndexOf(list[k]) + 1
  }

  ghost predicate Next(s: Storage, e: Event, t: Storage) {
    Enabled(s, e) &&
    match e
    case Scan(list) => t.dir == s.dir && Rescanned(list, t.cnt)
    case ScanFails => t == Storage(0, s.dir)
    case NoCard => t == s
    case Write(created) => t == Storage(s.cnt + 1, if created then s.dir + {Name(s.cnt)} else s.dir)
    case Outside(dir) => t == Storage(s.cnt, dir)
  }

  /** Every picture on the card was made by this program. */
  predicate OwnPictures(dir: set<string>) {
    forall name :: name in dir && HasPrefix(name) ==> IsImage(name)
  }

  /** All pictures on the card are numbered below n. */
  predicate Below(dir: set<string>, n: int)
    requires OwnPictures(dir)
  {
    forall name :: name in dir && HasPrefix(name) ==> IndexOf(name) < n
  }

  predicate Inv(s: Storage) {
    s.cnt >= 0 && OwnPictures(s.dir) && Below(s.dir, s.cnt)
  }

  predicate Rescan(e: Event) {
    e.Scan? || e.ScanFails?
  }

  /** What a rescan has to find: a last picture that is widest, and no picture at all when
      scandir fails, which restarts the counter at 0. */
  ghost predicate RescanSafe(s: Storage, e: Event)
    requires OwnPictures(s.dir) && Rescan(e) && Enabled(s, e)
  {
    match e
    case Scan(list) => forall k: nat :: LastOf(list, k) ==> Widest(list, k)
    case _ => Below(s.dir, 0)
  }

  lemma ScanInv(s: Storage, list: seq<string>, t: Storage)
    requires OwnPictures(s.dir) && Next(s, Scan(list), t)
    ensures t.cnt >= 0 && (Inv(t) <==> RescanSafe(s, Scan(list)))
  {
    if !NoneOf(list) {
      var k: nat :| LastOf(list, k) && t.cnt == IndexOf(list[k]) + 1;
      LastIsLargest(list, k);
      OneLast(list, k);
      BelowListed(s.dir, list, t.cnt);
    }
  }

  lemma OneLast(list: seq<string>, k: nat)
    requires LastOf(list, k)
    ensures forall j: nat :: LastOf(list, j) <==> j == k
  {
  }

  lemma BelowListed(dir: set<string>, list: seq<string>, n: int)
    requires OwnPictures(dir) && Lists(list, dir)
    ensures Below(dir, n) <==> forall j :: 0 <= j < |list| && HasPrefix(list[j]) ==> IndexOf(list[j]) < n
  {
    if forall j :: 0 <= j < |list| && HasPrefix(list[j]) ==> IndexOf(list[j]) < n {
      forall name | name in dir && HasPrefix(name) ensures IndexOf(name) < n {
        var j :| 0 <= j < |list| && list[j] == name;
      }
    }
  }

  /** A rescan puts the counter above every picture exactly when it is safe. */
  lemma RescanInv(s: Storage, e: Event, t: Storage)
    requires OwnPictures(s.dir) && Rescan(e) && Next(s, e, t)
    ensures t.cnt >= 0 && t.dir == s.dir && (Inv(t) <==> RescanSafe(s, e))
  {
    if e.Scan? {
      ScanInv(s, e.list, t);
    }
  }

  /** While all pictures are numbered below 10000, every rescan that lists them is safe. */
  lemma FourDigitsAreSafe(s: Storage, list: seq<string>)
    requires OwnPictures(s.dir) && Below(s.dir, FOUR_DIGITS) && Enabled(s, Scan(list))
    ensures RescanSafe(s, Scan(list))
  {
    forall j | 0 <= j < |list| && HasPrefix(list[j]) ensures Width(IndexOf(list[j])) == 4 {
      FourDigits(IndexOf(list[j]));
    }
  }

  lemma WriteInv(s: Storage, created: bool, t: Storage)
    requires Inv(s) && Next(s, Write(created), t)
    ensures Inv(t) && Name(s.cnt) !in s.dir
  {
    IndexOfName(s.cnt);
  }

  ghost predicate Run(states: seq<Storage>, events: seq<Event>) {
    |states| == |events| + 1 && forall i :: 0 <= i < |events| ==> Next(states[i], events[i], states[i + 1])
  }

  /** No picture is written under a name that exists. */
  ghost predicate NoOverwrite(states: seq<Storage>, events: seq<Event>)
    requires |states| == |events| + 1
  {
    forall i :: 0 <= i < |events| && events[i].Write? ==> Name(states[i].cnt) !in states[i].dir
  }

  /** The rescans of a run are safe, and its counter starts above all pictures or is set first. */
  ghost predicate SafeRescans(states: seq<Storage>, events: seq<Event>)
    requires |states| == |events| + 1
  {
    && OwnPictures(states[0].dir)
    && (Inv(states[0]) || (events != [] && Rescan(events[0])))
    && forall j :: 0 <= j < |events| ==> SafeStep(states[j], events[j])
  }

  ghost predicate SafeStep(s: Storage, e: Event) {
    Rescan(e) && Enabled(s, e) && OwnPictures(s.dir) ==> RescanSafe(s, e)
  }

  lemma {:induction false} InvAlong(states: seq<Storage>, events: seq<Event>, i: nat)
    requires Run(states, events) && SafeRescans(states, events) && i < |states|
    ensures i > 0 || Inv(states[0]) ==> Inv(states[i])
  {
    if i > 0 {
      InvAlong(states, events, i - 1);
      var s, e, t := states[i - 1], events[i - 1], states[i];
      assert Next(s, e, t) && SafeStep(s, e);
      if Rescan(e) {
        RescanInv(s, e, t);
      } else if e.Write? {
        WriteInv(s, e.created, t);
      }
    }
  }

  /** Over every run: as long as each rescan is safe, no picture is ever written over another. */
  lemma NamesAreFresh(states: seq<Storage>, events: seq<Event>)
    requires Run(states, events) && SafeRescans(states, events)
    ensures NoOverwrite(states, events)
  {
    forall i | 0 <= i < |events| && events[i].Write?
      ensures Name(states[i].cnt) !in states[i].dir
    {
      InvAlong(states, events, i);
      assert Next(states[i], events[i], states[i + 1]);
      WriteInv(states[i], events[i].created, states[i + 1]);
    }
  }

  /** n pictures written one after the other. */
  lemma {:induction false} WritesRun(s: Storage, n: nat) returns (states: seq<Storage>, events: seq<Event>)
    ensures Run(states, events) && |events| == n && states[0] == s
    ensures forall i :: 0 <= i < n ==> events[i] == Write(true)
  {
    if n == 0 {
      states, events := [s], [];
    } else {
      var before, writes := WritesRun(s, n - 1);
      var last := before[n - 1];
      var t := Storage(last.cnt + 1, last.dir + {Name(last.cnt)});
      RunSnoc(before, writes, Write(true), t);
      states, events := before + [t], writes + [Write(true)];
    }
  }

  lemma RunSnoc(states: seq<Storage>, events: seq<Event>, e: Event, t: Storage)
    requires Run(states, events) && Next(states[|events|], e, t)
    ensures Run(states + [t], events + [e])
  {
    var ss, es := states + [t], events + [e];
    forall i | 0 <= i < |es| ensures Next(ss[i], es[i], ss[i + 1]) {
      if i < |events| {
        assert Next(states[i], events[i], states[i + 1]);
      }
    }
  }

  ghost predicate NoRescan(events: seq<Event>) {
    forall i :: 0 <= i < |events| ==> !Rescan(events[i])
  }

  /** No run without a rescan overwrites a picture. */
  ghost predicate SafeUntilRescan(s: Storage) {
    forall states, events :: Run(states, events) && states[0] == s && NoRescan(events) ==> NoOverwrite(states, events)
  }

  lemma TakenLater(t: Storage, name: string)
    requires name in t.dir && IsImage(name) && IndexOf(name) >= t.cnt
    ensures !SafeUntilRescan(t)
  {
    var n := IndexOf(name) - t.cnt;
    var states, events := WritesRun(t, n + 1);
    WritesPass(states, events, n);
    assert events[n].Write? && Name(states[n].cnt) == name;
    assert !NoOverwrite(states, events);
  }

  /** Main result: whatever the card holds, no run of writes, failed writes and outside changes
      up to the next rescan overwrites a picture exactly when the last rescan was safe. */
  lemma OverwriteIff(s: Storage, e: Event, t: Storage)
    requires OwnPictures(s.dir) && Rescan(e) && Next(s, e, t)
    ensures SafeUntilRescan(t) <==> RescanSafe(s, e)
  {
    RescanInv(s, e, t);
    if RescanSafe(s, e) {
      forall states, events | Run(states, events) && states[0] == t && NoRescan(events)
        ensures NoOverwrite(states, events)
      {
        NamesAreFresh(states, events);
      }
    } else {
      var name :| name in t.dir && HasPrefix(name) && IndexOf(name) >= t.cnt;
      TakenLater(t, name);
    }
  }

  /** Along written pictures the counter goes up by one and nothing disappears. */
  lemma {:induction false} WritesPass(states: seq<Storage>, events: seq<Event>, i: nat)
    requires Run(states, events) && i < |states| && forall j :: 0 <= j < |events| ==> events[j] == Write(true)
    ensures states[i].cnt == states[0].cnt + i && states[0].dir <= states[i].dir
  {
    if i > 0 {
      WritesPass(states, events, i - 1);
      assert Next(states[i - 1], events[i - 1], states[i]);
    }
  }

  /** A failed scandir on a card with picture 0 overwrites it with the next write. */
  lemma FailedScanOverwrites(cnt: int, dir: set<string>)
    requires Name(0) in dir
    ensures var states := [Storage(cnt, dir), Storage(0, dir), Storage(1, dir)];
            var events := [ScanFails, Write(true)];
            Run(states, events) && !NoOverwrite(states, events)
  {
    var states := [Storage(cnt, dir), Storage(0, dir), Storage(1, dir)];
    var events := [ScanFails, Write(true)];
    assert dir + {Name(0)} == dir;
    assert Next(states[0], events[0], states[1]) && Next(states[1], events[1], states[2]);
    assert events[1].Write?;
  }

  /** From a card with a row of nines only, two pictures with a rescan between them are written
      under one name. */
  lemma OneNameTwice(n: nat) returns (states: seq<Storage>, events: seq<Event>)
    requires AllNines(Digits(n, 4))
    ensures Run(states, events) && !NoOverwrite(states, events)
    ensures events == [Scan([Name(n)]), Write(true), Scan([Name(n + 1), Name(n)]), Write(true)]
    ensures states[0] == Storage(0, {Name(n)})
  {
    IndexOfName(n);
    IndexOfName(n + 1);
    NextSortsBefore(n);
    states := WriteTwice(n, Name(n), Name(n + 1));
    events := [Scan([Name(n)]), Write(true), Scan([Name(n + 1), Name(n)]), Write(true)];
  }

  lemma WriteTwice(n: nat, a: string, b: string) returns (states: seq<Storage>)
    requires HasPrefix(a) && HasPrefix(b) && IndexOf(a) == n && b == Name(n + 1) && Before(b, a)
    ensures var events := [Scan([a]), Write(true), Scan([b, a]), Write(true)];
            Run(states, events) && !NoOverwrite(states, events) && states[0] == Storage(0, {a})
  {
    var events := [Scan([a]), Write(true), Scan([b, a]), Write(true)];
    states := [Storage(0, {a}), Storage(n + 1, {a}), Storage(n + 2, {a, b}),
               Storage(n + 1, {a, b}), Storage(n + 2, {a, b})];
    assert LastOf([a], 0) && LastOf([b, a], 1);
    assert {a} + {b} == {a, b} && {a, b} + {b} == {a, b};
    assert Next(states[0], events[0], states[1]) && Next(states[1], events[1], states[2]);
    assert Next(states[2], events[2], states[3]) && Next(states[3], events[3], states[4]);
    assert events[3].Write?;
  }

  // ------------------------------------------------------- the imperative code

  /** g_image_cnt and the card. */
  class ImageFiles {
    var cnt: int
    var dir: set<string>

    constructor (dir: set<string>)
      ensures cnt == 0 && this.dir == dir
    {
      cnt, this.dir := 0, dir;
    }

    function State(): (s: Storage)
      reads this
    {
      Storage(cnt, dir)
    }

    /** check_sdcard_content, with the listing of the card when there is one. */
    method CheckSdcardContent(mounted: bool, answer: int, list: seq<string>) returns (retval: bool)
      requires answer == -1 || (answer == |list| && Lists(list, dir))
      modifies this`cnt
      ensures retval == mounted
      ensures Next(old(State()), if !mounted then NoCard else if answer < 0 then ScanFails else Scan(list), State())
    {
      if mounted {
        ghost var k;
        cnt, k := GetNextIndex(answer, list);
        retval := true;
      } else {
        retval := false;
      }
    }

    /** file_writeimage: 0 or -1, and the name used.  A short fwrite leaves the file there. */
    method FileWriteImage(created: bool, complete: bool) returns (ret: int, fname: string)
      modifies this
      ensures Next(old(State()), Write(created), State())
      ensures cnt == old(cnt) + 1 && dir == old(dir) + if created then {fname} else {}
      ensures fname == Name(old(cnt)) && ret == if created && complete then 0 else -1
    {
      fname := Name(cnt);
      cnt := cnt + 1;
      if !created {
        return -1, fname;
      }
      dir := dir + {fname};
      ret := 0;
      if !complete {
        ret := -1;
      }
    }
  }
}
