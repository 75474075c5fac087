/**
 * `EmailGenerator.generate_followup`: the HTML follow-up mail after a
 * one-on-one review, built from a fixed template. Every template line is
 * indented by eight spaces, the text opens with a line break and closes with
 * the indentation of the line holding the closing quotes.
 */
module EmailGenerator {
  import opened Text

  const Indent := "        "

  /** One line of the template. */
  function Line(s: string): string {
    Indent + s + "\n"
  }

  /** A template line contains its own text. */
  lemma LineContains(s: string)
    ensures Contains(Line(s), s)
  {
    ContainsMiddle(Indent, s, "\n");
  }

  /** The template up to the greeting: the document head and its style sheet. */
  const Opening: string :=
    "\n" + Line("<html>") + Line("<head>") + Line("<style>") + Line("body {")
    + Line("font-family: 'Segoe UI', sans-serif;") + Line("font-size: 14px;") + Line("color: #333;")
    + Line("}") + Line("</style>") + Line("</head>") + Line("<body>")

  const Intro := "<p>I wanted to follow up on our recent one-on-one meeting. Here is a summary of the review:</p>"
  const GoalsHeading := "<p><b>Goal Achievement:</b><br>"
  const Closing: string :=
    Line("<p>If you have any questions or would like to discuss this further, please feel free to reach out.</p>")
    + Line("<p>Best regards,<br>[Your Name]</p>") + Line("</body>") + Line("</html>") + Indent

  /** `employee.get('name', 'Employee')`: the entry under "name", however
      empty, or `Employee` when there is none. */
  function NameOf(employee: map<string, string>): string
  {
    if "name" in employee then employee["name"] else "Employee"
  }

  function Greeting(name: string): string { "<p>Dear " + name + ",</p>" }
  function SummaryLine(summaryText: string): string { "<p>" + summaryText + "</p>" }
  function CallsLine(calls: int, callGoal: string): string { "Calls: " + IntToString(calls) + " / " + callGoal + "<br>" }
  function TicketsLine(tickets: int, ticketGoal: string): string { "Tickets: " + IntToString(tickets) + " / " + ticketGoal + "</p>" }

  /** The mail with the employee's name, the summary verbatim (no escaping),
      and the calls and tickets against their goals. */
  function GenerateFollowup(employee: map<string, string>, summaryText: string, calls: int, tickets: int,
                            callGoal: string, ticketGoal: string): (r: string)
    ensures Contains(r, Greeting(NameOf(employee)))
    ensures Contains(r, SummaryLine(summaryText))
    ensures Contains(r, CallsLine(calls, callGoal))
    ensures Contains(r, TicketsLine(tickets, ticketGoal))
  {
    var greeting := Line(Greeting(NameOf(employee)));
    var intro := Line(Intro);
    var summary := Line(SummaryLine(summaryText));
    var heading := Line(GoalsHeading);
    var callsLine := Line(CallsLine(calls, callGoal));
    var ticketsLine := Line(TicketsLine(tickets, ticketGoal));
    var r := Opening + greeting + intro + summary + heading + callsLine + ticketsLine + Closing;
    LineContains(Greeting(NameOf(employee)));
    ContainsPrepend(Opening, greeting, Greeting(NameOf(employee)));
    ContainsAppend(Opening + greeting, Greeting(NameOf(employee)), intro);
    ContainsAppend(Opening + greeting + intro, Greeting(NameOf(employee)), summary);
    ContainsAppend(Opening + greeting + intro + summary, Greeting(NameOf(employee)), heading);
    ContainsAppend(Opening + greeting + intro + summary + heading, Greeting(NameOf(employee)), callsLine);
    ContainsAppend(Opening + greeting + intro + summary + heading + callsLine, Greeting(NameOf(employee)), ticketsLine);
    ContainsAppend(Opening + greeting + intro + summary + heading + callsLine + ticketsLine, Greeting(NameOf(employee)), Closing);
    LineContains(SummaryLine(summaryText));
    ContainsPrepend(Opening + greeting + intro, summary, SummaryLine(summaryText));
    ContainsAppend(Opening + greeting + intro + summary, SummaryLine(summaryText), heading);
    ContainsAppend(Opening + greeting + intro + summary + heading, SummaryLine(summaryText), callsLine);
    ContainsAppend(Opening + greeting + intro + summary + heading + callsLine, SummaryLine(summaryText), ticketsLine);
    ContainsAppend(Opening + greeting + intro + summary + heading + callsLine + ticketsLine, SummaryLine(summaryText), Closing);
    LineContains(CallsLine(calls, callGoal));
    ContainsPrepend(Opening + greeting + intro + summary + heading, callsLine, CallsLine(calls, callGoal));
    ContainsAppend(Opening + greeting + intro + summary + heading + callsLine, CallsLine(calls, callGoal), ticketsLine);
    ContainsAppend(Opening + greeting + intro + summary + heading + callsLine + ticketsLine, CallsLine(calls, callGoal), Closing);
    LineContains(TicketsLine(tickets, ticketGoal));
    ContainsPrepend(Opening + greeting + intro + summary + heading + callsLine, ticketsLine, TicketsLine(tickets, ticketGoal));
    ContainsAppend(Opening + greeting + intro + summary + heading + callsLine + ticketsLine, TicketsLine(tickets, ticketGoal), Closing);
    r
  }

  /** The greeting uses the "name" entry when there is one and `Employee`
      otherwise. */
  lemma FollowupGreeting(employee: map<string, string>, summaryText: string, calls: int, tickets: int,
                         callGoal: string, ticketGoal: string)
    ensures "name" in employee ==>
              Contains(GenerateFollowup(employee, summaryText, calls, tickets, callGoal, ticketGoal), Greeting(employee["name"]))
    ensures "name" !in employee ==>
              Contains(GenerateFollowup(employee, summaryText, calls, tickets, callGoal, ticketGoal), Greeting("Employee"))
  {
  }

  /** The mail depends on the employee only through the "name" entry: any two
      employees with the same name, or both without one, get the same mail. */
  lemma FollowupReadsOnlyName(e1: map<string, string>, e2: map<string, string>, summaryText: string,
                              calls: int, tickets: int, callGoal: string, ticketGoal: string)
    requires ("name" in e1 <==> "name" in e2)
    requires "name" in e1 ==> e1["name"] == e2["name"]
    ensures GenerateFollowup(e1, summaryText, calls, tickets, callGoal, ticketGoal)
         == GenerateFollowup(e2, summaryText, calls, tickets, callGoal, ticketGoal)
  {
  }

  /** Everything but the six substituted texts is fixed template text: the
      length of the mail is a constant plus their lengths. */
  lemma FollowupLength(employee: map<string, string>, summaryText: string, calls: int, tickets: int,
                       callGoal: string, ticketGoal: string)
    ensures |GenerateFollowup(employee, summaryText, calls, tickets, callGoal, ticketGoal)|
         == |GenerateFollowup(map[], "", 0, 0, "", "")| - |"Employee"| - 2
            + |NameOf(employee)| + |summaryText| + |IntToString(calls)| + |callGoal|
            + |IntToString(tickets)| + |ticketGoal|
  {
  }
}
