/**
 * The prompt builder: the fixed system instruction with one bulleted line per
 * rule appended, the user instruction around the raw ticket text, and the
 * two-message conversation sent to the completion endpoint.
 */
module PromptBuilder {
  import opened Text

  /** The fixed part of the system instruction, up to and including "Rules to apply:" and its newline. */
  const SystemHeader: string :=
    "You are a meticulous ITSM validator for ServiceNow tickets. \n"
    + "Analyze the provided tickets against the completeness rules and return a JSON array with this exact structure:\n"
    + "\n"
    + "[\n"
    + "  {\n"
    + "    \"ticket_id\": \"string (prefer sys_id, else number, else 'unknown')\",\n"
    + "    \"ticket_number\": \"string (prefer number field, else '')\",\n"
    + "    \"type\": \"string (incident/request/other)\",\n"
    + "    \"completeness\": boolean,\n"
    + "    \"missing_fields\": [\"field1\", \"field2\"],\n"
    + "    \"remarks\": \"string (concise guidance)\"\n"
    + "  }\n"
    + "]\n"
    + "\n"
    + "Rules to apply:\n"

  /** The text of the user instruction before the ticket batch. */
  const UserLead: string := "Analyze these ServiceNow tickets for completeness:\n\n"

  /** The text of the user instruction after the ticket batch. */
  const UserTail: string := "\n\nReturn ONLY the JSON array, no other text or markdown."

  const Newline: string := "\n"

  /** `f"- {rule}"` */
  function Bullet(rule: string): string {
    "- " + rule
  }

  function Bullets(rules: seq<string>): seq<string> {
    seq(|rules|, k requires 0 <= k < |rules| => Bullet(rules[k]))
  }

  /** `"\n".join([f"- {rule}" for rule in rules])` */
  function RulesSection(rules: seq<string>): string {
    Join(Newline, Bullets(rules))
  }

  function SystemPrompt(rules: seq<string>): string {
    SystemHeader + RulesSection(rules)
  }

  function UserPrompt(ticketsRaw: string): string {
    UserLead + ticketsRaw + UserTail
  }

  datatype Role = System | User

  datatype Message = Message(role: Role, content: string)

  /** The conversation: exactly one system message, then exactly one user message. */
  function Conversation(rules: seq<string>, ticketsRaw: string): (messages: seq<Message>)
    ensures |messages| == 2
    ensures messages[0].role == System && messages[1].role == User
    ensures StartsWith(messages[0].content, SystemHeader)
    ensures messages[0].content[|SystemHeader|..] == RulesSection(rules)
    ensures StartsWith(messages[1].content, UserLead)
    ensures |messages[1].content| == |UserLead| + |ticketsRaw| + |UserTail|
    ensures messages[1].content[|UserLead|..|UserLead| + |ticketsRaw|] == ticketsRaw
    ensures messages[1].content[|UserLead| + |ticketsRaw|..] == UserTail
  {
    var system := SystemPrompt(rules);
    var user := UserPrompt(ticketsRaw);
    assert system[..|SystemHeader|] == SystemHeader;
    assert user[..|UserLead|] == UserLead;
    assert user[|UserLead| + |ticketsRaw|..] == UserTail;
    [Message(System, system), Message(User, user)]
  }

  /** With no rules, nothing follows the header. */
  lemma SystemPromptWithoutRules()
    ensures SystemPrompt([]) == SystemHeader
  {
    assert Bullets([]) == [];
  }

  /**
   * One more rule adds exactly one line: the first rule follows the header
   * directly, every later one follows a single newline, and nothing trails
   * the last bullet.
   */
  lemma RulesSectionAppend(rules: seq<string>, rule: string)
    ensures RulesSection(rules + [rule])
         == if rules == [] then "- " + rule else RulesSection(rules) + "\n- " + rule
  {
    assert Bullets(rules + [rule]) == Bullets(rules) + [Bullet(rule)];
    JoinAppend(Newline, Bullets(rules), Bullet(rule));
    assert rules == [] ==> Bullets(rules) == [];
    assert rules != [] ==> Bullets(rules) != [];
  }

  /** A text without a newline character contains no one-character newline separator. */
  lemma NoNewline(s: string)
    requires '\n' !in s
    ensures !Contains(s, Newline)
  {
    forall i | 0 <= i <= |s| - 1 ensures !OccursAt(s, Newline, i) {
      assert s[i..i + 1] == [s[i]];
    }
  }

  /**
   * Read back line by line, the text after the header is exactly the rules in
   * input order, one per line, each behind "- ", when no rule holds a newline.
   */
  lemma RulesSectionLines(rules: seq<string>)
    requires rules != []
    requires forall k :: 0 <= k < |rules| ==> '\n' !in rules[k]
    ensures var lines := Split(SystemPrompt(rules)[|SystemHeader|..], Newline);
      |lines| == |rules| && forall k :: 0 <= k < |rules| ==> lines[k] == "- " + rules[k]
  {
    var bullets := Bullets(rules);
    forall k | 0 <= k < |bullets| ensures !Contains(bullets[k], Newline) {
      assert '\n' !in "- ";
      assert '\n' !in bullets[k];
      NoNewline(bullets[k]);
    }
    assert SystemPrompt(rules)[|SystemHeader|..] == RulesSection(rules);
    SplitJoin(Newline, bullets);
  }
}
